/**
 From extracted attributes back to attribute-value pairs: the switch over types in rad_decode
 (radius.c), against the switch over types in rad_send.
 */
module Values {
  import opened Octets
  import opened Password
  import opened TunnelPassword
  import opened Attributes
  import opened Decode
  import opened Transmit

  datatype Entry = Entry(typ: PairType, hasTag: bool, encrypt: byte)

  type Dictionary = word -> Option<Entry>

  const BAD_VALUE: word := 0xbad1bad1

  /** What an end of the line hides and uncovers passwords with. */
  datatype Keys = Keys(md5: Hash, secret: seq<byte>, vector: Digest)

  function KeysOf(c: Context): (k: Keys)
  {
    Keys(c.md5, c.secret, c.vector)
  }

  /** A negative length handed to memcpy, an attribute of unknown type, or a pair. */
  datatype Decoded = Fault | Dropped | Decoded(pair: Pair)

  /** The hidden styles other than User-Password are undone by an arbitrary function. */
  type Undo = (byte, seq<byte>) -> seq<byte>

  predicate Plainish(t: PairType)
  {
    t.Text? || t.RawOctets? || t.ABinary?
  }

  /** Passwords in the clear again; User-Password is cut at its first zero. */
  function Uncovered(k: Keys, undo: Undo, attribute: word, encrypt: byte, v: seq<byte>): (r: seq<byte>)
  {
    if encrypt == ENCRYPT_USER_PASSWORD then
      var u := Unchain(k.md5, k.secret, k.vector, v);
      if attribute == USER_PASSWORD then u[..StrLen(u)] else u
    else if encrypt == ENCRYPT_TUNNEL_PASSWORD || encrypt == ENCRYPT_ASCEND_SECRET then undo(encrypt, v)
    else v
  }

  /** Strings and octets.  The tag test of a tagged string reads the first octet of the payload even
      if there is none; `next` is what lies there. */
  function DecodeString(k: Keys, undo: Undo, e: Entry, w: WireAttr, next: byte): (d: Decoded)
  {
    var first := if w.payload == [] then next else w.payload[0];
    var tagged := e.hasTag && e.typ.Text?;
    var stripped := tagged && (TagValid(first) || e.encrypt == ENCRYPT_TUNNEL_PASSWORD);
    if stripped && w.payload == [] then Fault
    else
      var encrypt := if w.attribute == USER_PASSWORD then ENCRYPT_USER_PASSWORD else e.encrypt;
      var v := if stripped then w.payload[1..] else w.payload;
      Decoded(Pair(w.attribute, e.typ, Uncovered(k, undo, w.attribute, encrypt, v), 0, e.hasTag,
                   if tagged && TagValid(first) then first else 0, encrypt))
  }

  /** Four-octet values; anything else becomes raw octets with a value that matches nothing. */
  function DecodeNumber(e: Entry, w: WireAttr): (d: Decoded)
  {
    if |w.payload| != 4 then Decoded(Pair(w.attribute, RawOctets, w.payload, BAD_VALUE, e.hasTag, 0, e.encrypt))
    else
      var v := FromBe32(w.payload);
      if e.hasTag && e.typ.Integer? then
        Decoded(Pair(w.attribute, e.typ, [], v % 0x100_0000, e.hasTag, SignedChar(v / 0x100_0000), e.encrypt))
      else Decoded(Pair(w.attribute, e.typ, [], v, e.hasTag, 0, e.encrypt))
  }

  /** The lengths and contents the IPv6 types insist on. */
  predicate Ipv6Shaped(t: PairType, v: seq<byte>)
  {
    && (t.IfId? ==> |v| == 8)
    && (t.Ipv6Addr? ==> |v| == 16)
    && (t.Ipv6Prefix? ==> 2 <= |v| <= 18 && v[1] <= 128)
  }

  function DecodeAs(k: Keys, undo: Undo, e: Entry, w: WireAttr, next: byte): (d: Decoded)
  {
    if Plainish(e.typ) then DecodeString(k, undo, e, w, next)
    else if e.typ.Integer? || e.typ.Date? || e.typ.IpAddr? then DecodeNumber(e, w)
    else if e.typ.Unknown? then Dropped
    else
      var t := if Ipv6Shaped(e.typ, w.payload) then e.typ else RawOctets;
      Decoded(Pair(w.attribute, t, w.payload, 0, e.hasTag, 0, e.encrypt))
  }

  /** Attributes the dictionary does not know are octets without flags. */
  function EntryOf(dict: Dictionary, attribute: word): (e: Entry)
  {
    var e := dict(attribute);
    if e.Some? then e.value else Entry(RawOctets, false, 0)
  }

  function DecodePair(k: Keys, undo: Undo, dict: Dictionary, w: WireAttr, next: byte): (d: Decoded)
  {
    DecodeAs(k, undo, EntryOf(dict, w.attribute), w, next)
  }

  // ---------------------------------------------------------------- one pair

  /** Type and flags as a receiver would set them, which takes User-Password for hidden whatever the
      dictionary says. */
  predicate Flagged(dict: Dictionary, p: Pair)
  {
    var e := EntryOf(dict, p.attribute);
    && p.typ == e.typ && p.hasTag == e.hasTag
    && if p.attribute == USER_PASSWORD then p.encrypt == ENCRYPT_USER_PASSWORD && e.encrypt != ENCRYPT_TUNNEL_PASSWORD
       else p.encrypt == e.encrypt
  }

  /** A pair as a receiver would build it: with these flags, a tag only where it is valid, and only the
      kind of value its type has. */
  predicate Canonical(dict: Dictionary, p: Pair)
  {
    && Flagged(dict, p)
    && (p.tag == 0 || (p.hasTag && TagValid(p.tag)))
    && (if Stringy(p.typ) then p.lvalue == 0 else p.value == [])
    && (p.hasTag && p.typ.Integer? ==> p.lvalue < 0x100_0000)
  }

  /** Hidden only in the User-Password style, and only where the receiver looks for it. */
  predicate PlainOrUserPassword(p: Pair)
  {
    && p.encrypt != ENCRYPT_TUNNEL_PASSWORD && p.encrypt != ENCRYPT_ASCEND_SECRET
    && (p.encrypt == ENCRYPT_USER_PASSWORD ==> Plainish(p.typ))
  }

  /** Octets of the pair depend on the sender's vector. */
  predicate Hides(p: Pair)
  {
    p.encrypt == ENCRYPT_USER_PASSWORD && p.value != []
  }

  /** A hidden value that comes back as it was: a User-Password without zeros, any other value in
      whole blocks, and neither longer than 128 octets. */
  predicate Restorable(p: Pair)
  {
    p.encrypt == ENCRYPT_USER_PASSWORD ==>
      |p.value| <= 128 && if p.attribute == USER_PASSWORD then 0 !in p.value else |p.value| % 16 == 0
  }

  /** When the octets of a pair say all there is to say about it. */
  predicate Representable(c: Context, p: Pair, next: byte)
  {
    if Plainish(p.typ) then
      && Restorable(p)
      && (if p.typ.Text? && p.hasTag then p.tag == 0 ==> !TagValid((Prepared(c, p) + [next])[0]) else p.tag == 0)
    else if p.typ.Integer? then true
    else !p.typ.Unknown? && p.tag == 0 && Ipv6Shaped(p.typ, p.value)
  }

  /** Both ends share digest function and secret. */
  ghost predicate Share(c: Context, k: Keys)
  {
    k.md5 == c.md5 && k.secret == c.secret
  }

  lemma UncoveredHidden(c: Context, k: Keys, undo: Undo, p: Pair)
    requires p.encrypt == Encryption(p) && PlainOrUserPassword(p) && (IsMac(p) ==> p.value == c.mac)
    requires Share(c, k) && (k.vector == c.vector || !Hides(p))
    ensures Uncovered(k, undo, p.attribute, p.encrypt, Prepared(c, p)) == p.value <==> Restorable(p)
  {
    if Hides(p) {
      if p.attribute == USER_PASSWORD {
        PasswordRoundTrip(c.md5, c.secret, c.vector, p.value);
      } else {
        BlocksRoundTrip(c.md5, c.secret, c.vector, p.value);
      }
    } else if p.encrypt == ENCRYPT_USER_PASSWORD {
      NothingHidden(c.md5, c.secret, c.vector);
      NothingHidden(c.md5, c.secret, k.vector);
    }
  }

  /** A hidden value that is not cut at zeros comes back exactly when it fills whole blocks. */
  lemma BlocksRoundTrip(md5: Hash, secret: seq<byte>, vector: Digest, v: seq<byte>)
    ensures Unchain(md5, secret, vector, Hidden(md5, secret, vector, v)) == v <==> |v| <= 128 && |v| % 16 == 0
  {
    HiddenRestores(md5, secret, vector, v);
    var cut := if |v| > 128 then v[..128] else v;
    assert |ZeroPad(cut)| == RoundUp(|cut|);
    if |v| <= 128 && |v| % 16 == 0 {
      assert ZeroPad(v) == v;
    }
  }

  lemma NothingHidden(md5: Hash, secret: seq<byte>, vector: Digest)
    ensures Hidden(md5, secret, vector, []) == [] && Unchain(md5, secret, vector, []) == []
  {
    assert ZeroPad([]) == [];
  }

  /** For a canonical pair, decoding its octets gives the pair back exactly when it is representable --
      with the sender's vector, or if nothing in the pair is hidden with it. */
  lemma PairRoundTrip(c: Context, k: Keys, undo: Undo, dict: Dictionary, p: Pair, next: byte)
    requires Canonical(dict, p) && PlainOrUserPassword(p) && (IsMac(p) ==> p.value == c.mac)
    requires Share(c, k) && (k.vector == c.vector || !Hides(p))
    ensures DecodePair(k, undo, dict, WireAttr(p.attribute, Payload(c, p)), next) == Decoded(p)
            <==> Representable(c, p, next)
  {
    if Plainish(p.typ) {
      StringRoundTrip(c, k, undo, p, next);
      SameString(k, undo, dict, p, WireAttr(p.attribute, Payload(c, p)), next);
    } else if p.typ.Integer? || p.typ.Date? || p.typ.IpAddr? {
      NumberRoundTrip(c, p);
    } else if !p.typ.Unknown? {
      assert p.tag == 0 ==> TagOctets(p) + Prepared(c, p) == p.value;
    }
  }

  /** The flag a User-Password has in the dictionary does not matter. */
  lemma SameString(k: Keys, undo: Undo, dict: Dictionary, p: Pair, w: WireAttr, next: byte)
    requires Flagged(dict, p) && w.attribute == p.attribute
    ensures DecodeString(k, undo, EntryOf(dict, p.attribute), w, next)
         == DecodeString(k, undo, Entry(p.typ, p.hasTag, p.encrypt), w, next)
  {
  }

  lemma NumberRoundTrip(c: Context, p: Pair)
    requires p.typ.Integer? || p.typ.Date? || p.typ.IpAddr?
    requires p.value == [] && (p.tag == 0 || (p.hasTag && TagValid(p.tag)))
    requires p.hasTag && p.typ.Integer? ==> p.lvalue < 0x100_0000
    ensures DecodeNumber(Entry(p.typ, p.hasTag, p.encrypt), WireAttr(p.attribute, Payload(c, p))) == Decoded(p)
            <==> p.typ.Integer? || p.tag == 0
  {
    if p.hasTag && p.typ.Integer? {
      TaggedSplits(p.lvalue, p.tag);
    }
  }

  lemma TaggedSplits(v: nat, tag: nat)
    requires v < 0x100_0000 && tag < 0x20
    ensures v % 0x100_0000 == v
    ensures (v + tag * 0x100_0000) % 0x100_0000 == v && (v + tag * 0x100_0000) / 0x100_0000 == tag
  {
  }

  lemma StringRoundTrip(c: Context, k: Keys, undo: Undo, p: Pair, next: byte)
    requires Plainish(p.typ) && p.encrypt == Encryption(p) && PlainOrUserPassword(p) && (IsMac(p) ==> p.value == c.mac)
    requires Share(c, k) && (k.vector == c.vector || !Hides(p))
    requires p.lvalue == 0 && (p.tag == 0 || (p.hasTag && TagValid(p.tag)))
    ensures DecodeString(k, undo, Entry(p.typ, p.hasTag, p.encrypt), WireAttr(p.attribute, Payload(c, p)), next)
            == Decoded(p)
            <==> Representable(c, p, next)
  {
    UncoveredHidden(c, k, undo, p);
    var s := Prepared(c, p);
    if p.hasTag && TagValid(p.tag) {
      assert ([p.tag] + s)[1..] == s;
    } else {
      assert [] + s == s;
    }
  }

  // ---------------------------------------------------------------- the wrong vector

  lemma XorTellsApart(a: byte, d: byte, d': byte)
    requires d != d'
    ensures Xor(Xor(a, d), d') != a
  {
    XorCommutes(a, d);
    XorCommutes(a, d');
    XorCancels(d, a);
    XorCancels(d', a);
    XorCancels(Xor(a, d), d');
  }

  /** A hidden value is lost on a receiver whose digest of secret and vector begins with another octet. */
  lemma HiddenLost(c: Context, k: Keys, undo: Undo, p: Pair)
    requires p.encrypt == Encryption(p) && Hides(p) && !IsMac(p) && Share(c, k)
    requires c.md5(c.secret + c.vector)[0] != c.md5(c.secret + k.vector)[0]
    ensures Prepared(c, p) != []
    ensures Uncovered(k, undo, p.attribute, p.encrypt, Prepared(c, p)) != p.value
  {
    var plain := ZeroPad(if |p.value| > 128 then p.value[..128] else p.value);
    var d, d' := c.md5(c.secret + c.vector), c.md5(c.secret + k.vector);
    var s := Prepared(c, p);
    assert |plain| >= 16 && plain[0] == p.value[0];
    FirstOfChain(c.md5, c.secret, c.vector, plain);
    FirstOfUnchain(c.md5, c.secret, k.vector, s);
    XorTellsApart(plain[0], d[0], d'[0]);
  }

  lemma FirstOfChain(md5: Hash, secret: seq<byte>, seed: seq<byte>, plain: seq<byte>)
    requires |plain| % 16 == 0 && plain != []
    ensures Chain(md5, secret, seed, plain)[0] == Xor(plain[0], md5(secret + seed)[0])
  {
    var b := plain[..16];
    var c := XorSeq(b, md5(secret + seed));
    assert b[0] == plain[0] && c[0] == Xor(b[0], md5(secret + seed)[0]);
    assert (c + Chain(md5, secret, c, plain[16..]))[0] == c[0];
  }

  lemma FirstOfUnchain(md5: Hash, secret: seq<byte>, seed: seq<byte>, cipher: seq<byte>)
    requires cipher != []
    ensures Unchain(md5, secret, seed, cipher)[0] == Xor(cipher[0], md5(secret + seed)[0])
  {
    if |cipher| > 16 {
      var b := cipher[..16];
      assert b[0] == cipher[0] && XorSeq(b, md5(secret + seed))[0] == Xor(b[0], md5(secret + seed)[0]);
    }
  }

  lemma PairLost(c: Context, k: Keys, undo: Undo, dict: Dictionary, p: Pair, next: byte)
    requires Canonical(dict, p) && PlainOrUserPassword(p) && Hides(p) && !IsMac(p) && Share(c, k)
    requires c.md5(c.secret + c.vector)[0] != c.md5(c.secret + k.vector)[0]
    ensures DecodePair(k, undo, dict, WireAttr(p.attribute, Payload(c, p)), next) != Decoded(p)
  {
    HiddenLost(c, k, undo, p);
    var s := Prepared(c, p);
    if p.hasTag && TagValid(p.tag) {
      assert ([p.tag] + s)[1..] == s;
    } else {
      assert [] + s == s;
    }
  }

  // ---------------------------------------------------------------- tunnel passwords

  /** What rad_decode takes for a tunnel password: as many octets as the decoder reports, from the front
      of the buffer, where the salt and the length octet still stand. */
  function TunnelTaken(k: Keys, hidden: seq<byte>): (v: seq<byte>)
  {
    match Reveal(k.md5, k.secret, k.vector, hidden)
    case TooShort => hidden
    case Broken => hidden[..Min(2, |hidden|)]
    case Text(length, plain) => (hidden[..Min(2, |hidden|)] + plain)[..if 0 <= length <= |plain| then length else 0]
  }

  /** The front of salt, length octet and password. */
  function Front(salt: seq<byte>, v: seq<byte>): (r: seq<byte>)
    requires |v| < 256
  {
    (salt + [|v|] + v)[..|v|]
  }

  lemma TunnelTakesFront(k: Keys, salt: seq<byte>, v: seq<byte>)
    requires |salt| == 2
    ensures TunnelTaken(k, TunnelHidden(k.md5, k.secret, k.vector, salt, v)) == Front(salt, Cut(v))
  {
    TunnelRoundTrip(k.md5, k.secret, k.vector, salt, v);
    var h := TunnelHidden(k.md5, k.secret, k.vector, salt, v);
    var r := Reveal(k.md5, k.secret, k.vector, h);
    assert h[..2] == salt;
    FrontOfPlain(salt, r.plain, Cut(v));
  }

  lemma FrontOfPlain(salt: seq<byte>, plain: seq<byte>, v: seq<byte>)
    requires |salt| == 2 && |v| < |plain| && |v| < 128 && plain[0] == |v| && plain[1..1 + |v|] == v
    ensures (salt + plain)[..|v|] == Front(salt, v)
  {
    var x, y := salt + plain, salt + [|v|] + v;
    forall i | 0 <= i < |v| ensures x[i] == y[i] {
      if i >= 3 {
        assert x[i] == plain[i - 2] == plain[1..1 + |v|][i - 3];
      }
    }
  }

  /** A tunnel password in the dictionary's usual form. */
  predicate TunnelPair(dict: Dictionary, p: Pair)
  {
    Canonical(dict, p) && p.typ.Text? && p.hasTag && p.encrypt == ENCRYPT_TUNNEL_PASSWORD && !IsMac(p)
  }

  /** The plain text is left behind salt and length octet, so a tunnel password comes back as a pair
      exactly when it repeats them: its octets are those of salt, length and password from the front. */
  lemma TunnelPairExactly(c: Context, dict: Dictionary, p: Pair, salt: seq<byte>, next: byte)
    requires TunnelPair(dict, p) && |salt| == 2
    requires c.other(ENCRYPT_TUNNEL_PASSWORD, p.value) == TunnelHidden(c.md5, c.secret, c.vector, salt, p.value)
    ensures var k := KeysOf(c);
            DecodePair(k, (e, h) => TunnelTaken(k, h), dict, WireAttr(p.attribute, Payload(c, p)), next) == Decoded(p)
            <==> |p.value| <= MAX_TUNNEL && p.value == Front(salt, p.value)
  {
    TunnelTakesFront(KeysOf(c), salt, p.value);
    var s := Prepared(c, p);
    assert s == TunnelHidden(c.md5, c.secret, c.vector, salt, p.value);
    assert |TagOctets(p)| == 1 && (TagOctets(p) + s)[0] == TagOctets(p)[0] && (TagOctets(p) + s)[1..] == s;
  }

  lemma FrontDiffers(salt: seq<byte>, v: seq<byte>)
    requires |salt| == 2 && 0 < |v| <= MAX_TUNNEL && salt[0] != v[0]
    ensures v != Front(salt, v)
  {
    assert Front(salt, v)[0] == salt[0];
  }

  /** The sender hides tunnel passwords with this salt. */
  function Salted(c: Context, salt: seq<byte>): (r: Context)
    requires |salt| == 2
  {
    c.(other := (e, v) => TunnelHidden(c.md5, c.secret, c.vector, salt, v))
  }

  /** The pair comes back when it is sent with this salt. */
  predicate TunnelSurvives(c: Context, dict: Dictionary, p: Pair, salt: seq<byte>, next: byte)
    requires |salt| == 2
  {
    var k := KeysOf(c);
    var w := WireAttr(p.attribute, Payload(Salted(c, salt), p));
    DecodePair(k, (e, h) => TunnelTaken(k, h), dict, w, next) == Decoded(p)
  }

  /** A tunnel password that is not empty is lost under one of two values of the first random word,
      whatever the call counter is. */
  lemma TunnelPairLost(c: Context, dict: Dictionary, p: Pair, next: byte, offset: word) returns (random: word)
    requires TunnelPair(dict, p) && p.value != []
    ensures !TunnelSurvives(c, dict, p, SaltOf(offset, random, 0), next)
  {
    random := if p.value[0] == SaltOctet(offset, 0) then 1 else 0;
    var salt := SaltOf(offset, random, 0);
    TunnelPairExactly(Salted(c, salt), dict, p, salt, next);
    if |p.value| <= MAX_TUNNEL {
      FrontDiffers(salt, p.value);
    }
  }

  /** Whatever the call counter is, a tunnel password comes back for every random source exactly when it
      is empty. */
  lemma TunnelSurvivesExactly(c: Context, dict: Dictionary, p: Pair, next: byte, offset: word)
    requires TunnelPair(dict, p)
    ensures (forall random0: word, random1: word ::
               TunnelSurvives(c, dict, p, SaltOf(offset, random0, random1), next))
            <==> p.value == []
  {
    if p.value == [] {
      forall random0: word, random1: word
        ensures TunnelSurvives(c, dict, p, SaltOf(offset, random0, random1), next)
      {
        var salt := SaltOf(offset, random0, random1);
        TunnelPairExactly(Salted(c, salt), dict, p, salt, next);
      }
    } else {
      var random := TunnelPairLost(c, dict, p, next, offset);
    }
  }

  // ---------------------------------------------------------------- Ascend secrets

  /** The first 16 octets of the value's buffer, whatever its length is. */
  function AscendHidden(k: Keys, buffer: Digest): (h: seq<byte>)
    ensures |h| == 16
  {
    XorSeq(buffer, k.md5(k.vector + k.secret))
  }

  function AscendTaken(k: Keys, hidden: seq<byte>): (v: seq<byte>)
    requires |hidden| == 16
  {
    var u := XorSeq(hidden, k.md5(k.vector + k.secret));
    u[..StrLen(u)]
  }

  lemma CutIs(buffer: seq<byte>, v: seq<byte>)
    requires buffer[..Min(|v|, |buffer|)] == v[..Min(|v|, |buffer|)]
    ensures buffer[..StrLen(buffer)] == v
            <==> |v| <= |buffer| && 0 !in v && (|v| == |buffer| || buffer[|v|] == 0)
  {
    if |v| <= |buffer| {
      assert buffer[..|v|] == v;
    }
  }

  /** An Ascend secret comes back exactly when it has at most 16 octets, none of them zero, and the buffer
      holds a zero behind it if it is shorter. */
  lemma AscendPairExactly(c: Context, dict: Dictionary, p: Pair, buffer: Digest, next: byte)
    requires Canonical(dict, p) && Plainish(p.typ) && !p.hasTag && p.encrypt == ENCRYPT_ASCEND_SECRET && !IsMac(p)
    requires buffer[..Min(|p.value|, 16)] == p.value[..Min(|p.value|, 16)]
    requires c.other(ENCRYPT_ASCEND_SECRET, p.value) == AscendHidden(KeysOf(c), buffer)
    ensures var k := KeysOf(c);
            DecodePair(k, (e, h) => if |h| == 16 then AscendTaken(k, h) else h, dict,
                       WireAttr(p.attribute, Payload(c, p)), next) == Decoded(p)
            <==> |p.value| <= 16 && 0 !in p.value && (|p.value| == 16 || buffer[|p.value|] == 0)
  {
    XorSeqCancels(buffer, c.md5(c.vector + c.secret));
    CutIs(buffer, p.value);
    assert [] + Prepared(c, p) == Prepared(c, p);
  }

  // ---------------------------------------------------------------- a whole packet

  /** The pairs of a packet in order, or None at a fault.  `peek` gives the octet behind an attribute
      by the number of attributes from it to the end. */
  function DecodeAll(k: Keys, undo: Undo, dict: Dictionary, ws: seq<WireAttr>,
                     peek: nat -> byte): (r: Option<seq<Pair>>)
    ensures r.Some? ==> |r.value| <= |ws|
  {
    if ws == [] then Some([])
    else Prefixed(DecodePair(k, undo, dict, ws[0], peek(|ws|)), DecodeAll(k, undo, dict, ws[1..], peek))
  }

  function Prefixed(first: Decoded, rest: Option<seq<Pair>>): (r: Option<seq<Pair>>)
  {
    if first.Fault? || rest.None? then None
    else if first.Dropped? then rest
    else Some([first.pair] + rest.value)
  }

  function Behind(out: seq<Pair>, rest: Option<seq<Pair>>): (r: Option<seq<Pair>>)
  {
    if rest.None? then None else Some(out + rest.value)
  }

  /** The list of pairs that rad_decode links together. */
  method BuildPairs(k: Keys, undo: Undo, dict: Dictionary, ws: seq<WireAttr>, peek: nat -> byte)
    returns (r: Option<seq<Pair>>)
    ensures r == DecodeAll(k, undo, dict, ws, peek)
  {
    var i, out: seq<Pair> := 0, [];
    ghost var all := DecodeAll(k, undo, dict, ws, peek);
    assert ws[0..] == ws && (all.Some? ==> [] + all.value == all.value);
    while i < |ws|
      invariant 0 <= i <= |ws| && all == Behind(out, DecodeAll(k, undo, dict, ws[i..], peek))
    {
      var d := DecodePair(k, undo, dict, ws[i], peek(|ws| - i));
      ghost var rest := DecodeAll(k, undo, dict, ws[i + 1..], peek);
      assert ws[i..][1..] == ws[i + 1..];
      BehindStep(out, d, rest);
      match d {
        case Fault => return None;
        case Dropped =>
        case Decoded(p) => out := out + [p];
      }
      i := i + 1;
    }
    assert out + [] == out;
    r := Some(out);
  }

  lemma BehindStep(out: seq<Pair>, d: Decoded, rest: Option<seq<Pair>>)
    ensures Behind(out, Prefixed(d, rest)) ==
            if d.Fault? then None else Behind(if d.Dropped? then out else out + [d.pair], rest)
  {
    if d.Decoded? && rest.Some? {
      assert out + ([d.pair] + rest.value) == out + [d.pair] + rest.value;
    }
  }

  /** What the sender means: the pairs that travel, blank in all Message-Authenticators but the last,
      which holds the digest that was computed for it. */
  function Meant(c: Context, m: Digest, vps: seq<Pair>): (r: seq<Pair>)
  {
    if vps == [] then []
    else if !OnWire(vps[0]) then Meant(c, m, vps[1..])
    else [Stamped(c, m, vps)] + Meant(c, m, vps[1..])
  }

  function Stamped(c: Context, m: Digest, vps: seq<Pair>): (p: Pair)
    requires vps != []
  {
    if !IsMac(vps[0]) then vps[0]
    else vps[0].(value := if MacCount(vps[1..]) == 0 then m else c.mac)
  }

  /** The context in which a Message-Authenticator holds its own value. */
  function Own(c: Context, p: Pair): (r: Context)
  {
    if IsMac(p) && |p.value| == 16 then c.(mac := p.value) else c
  }

  function Wired(c: Context, ps: seq<Pair>): (r: seq<WireAttr>)
    ensures |r| == |ps|
  {
    if ps == [] then [] else [WireAttr(ps[0].attribute, Payload(Own(c, ps[0]), ps[0]))] + Wired(c, ps[1..])
  }

  predicate AllCanonical(dict: Dictionary, ps: seq<Pair>)
  {
    ps == [] || (Canonical(dict, ps[0]) && PlainOrUserPassword(ps[0]) && (IsMac(ps[0]) ==> |ps[0].value| == 16)
                 && AllCanonical(dict, ps[1..]))
  }

  predicate AllRepresentable(c: Context, ps: seq<Pair>, peek: nat -> byte)
  {
    ps == [] || (Representable(Own(c, ps[0]), ps[0], peek(|ps|)) && AllRepresentable(c, ps[1..], peek))
  }

  predicate HidesSome(ps: seq<Pair>)
  {
    ps != [] && (Hides(ps[0]) || HidesSome(ps[1..]))
  }

  lemma {:induction false} ArrivedWithoutMac(c: Context, m: Digest, vps: seq<Pair>)
    requires MacCount(vps) == 0
    ensures Arrived(c, m, vps) == Carried(c, vps)
  {
    if vps != [] {
      ArrivedWithoutMac(c, m, vps[1..]);
    }
  }

  lemma {:induction false} ArrivedIsMeant(c: Context, m: Digest, vps: seq<Pair>)
    requires PlainMacs(vps)
    ensures Arrived(c, m, vps) == Wired(c, Meant(c, m, vps))
  {
    if vps != [] {
      ArrivedIsMeant(c, m, vps[1..]);
      if OnWire(vps[0]) {
        StampedWired(c, m, vps);
        assert Meant(c, m, vps)[1..] == Meant(c, m, vps[1..]);
        if IsMac(vps[0]) && MacCount(vps[1..]) == 0 {
          ArrivedWithoutMac(c, m, vps[1..]);
        }
      }
    }
  }

  lemma StampedWired(c: Context, m: Digest, vps: seq<Pair>)
    requires vps != [] && PlainMacs(vps)
    ensures var p := Stamped(c, m, vps);
            Payload(Own(c, p), p)
            == if !IsMac(vps[0]) then Payload(c, vps[0]) else if MacCount(vps[1..]) == 0 then m else c.mac
    ensures IsMac(vps[0]) ==> Payload(c, vps[0]) == c.mac
  {
    var p := Stamped(c, m, vps);
    if IsMac(p) {
      PayloadOfMac(Own(c, p), p);
      PayloadOfMac(c, vps[0]);
    }
  }

  /** The receiver's list is the sender's list exactly when every pair is decoded to itself. */
  predicate AllDecode(c: Context, k: Keys, undo: Undo, dict: Dictionary, ps: seq<Pair>, peek: nat -> byte)
  {
    ps == []
    || (var w := WireAttr(ps[0].attribute, Payload(Own(c, ps[0]), ps[0]));
        DecodePair(k, undo, dict, w, peek(|ps|)) == Decoded(ps[0]) && AllDecode(c, k, undo, dict, ps[1..], peek))
  }

  lemma {:induction false} ListDecodes(c: Context, k: Keys, undo: Undo, dict: Dictionary, ps: seq<Pair>,
                                       peek: nat -> byte)
    ensures DecodeAll(k, undo, dict, Wired(c, ps), peek) == Some(ps) <==> AllDecode(c, k, undo, dict, ps, peek)
  {
    if ps != [] {
      var ws := Wired(c, ps);
      assert ws[1..] == Wired(c, ps[1..]);
      ListDecodes(c, k, undo, dict, ps[1..], peek);
      PrefixedExactly(DecodePair(k, undo, dict, ws[0], peek(|ps|)), DecodeAll(k, undo, dict, ws[1..], peek), ps);
    }
  }

  lemma PrefixedExactly(first: Decoded, rest: Option<seq<Pair>>, ps: seq<Pair>)
    requires ps != [] && (rest.Some? ==> |rest.value| <= |ps| - 1)
    ensures Prefixed(first, rest) == Some(ps) <==> first == Decoded(ps[0]) && rest == Some(ps[1..])
  {
    assert ps == [ps[0]] + ps[1..];
    if first.Decoded? && rest.Some? {
      assert ([first.pair] + rest.value)[1..] == rest.value;
    }
  }

  lemma {:induction false} AllDecodeExactly(c: Context, k: Keys, undo: Undo, dict: Dictionary, ps: seq<Pair>,
                                            peek: nat -> byte)
    requires AllCanonical(dict, ps) && Share(c, k) && (k.vector == c.vector || !HidesSome(ps))
    ensures AllDecode(c, k, undo, dict, ps, peek) <==> AllRepresentable(c, ps, peek)
  {
    if ps != [] {
      PairRoundTrip(Own(c, ps[0]), k, undo, dict, ps[0], peek(|ps|));
      AllDecodeExactly(c, k, undo, dict, ps[1..], peek);
    }
  }

  /** The same for a whole list. */
  lemma ListRoundTrip(c: Context, k: Keys, undo: Undo, dict: Dictionary, ps: seq<Pair>, peek: nat -> byte)
    requires AllCanonical(dict, ps) && Share(c, k) && (k.vector == c.vector || !HidesSome(ps))
    ensures DecodeAll(k, undo, dict, Wired(c, ps), peek) == Some(ps) <==> AllRepresentable(c, ps, peek)
  {
    ListDecodes(c, k, undo, dict, ps, peek);
    AllDecodeExactly(c, k, undo, dict, ps, peek);
  }

  lemma {:induction false} SomeLost(c: Context, k: Keys, undo: Undo, dict: Dictionary, ps: seq<Pair>, peek: nat -> byte)
    requires AllCanonical(dict, ps) && Share(c, k) && HidesSome(ps) && MacsBare(ps)
    requires c.md5(c.secret + c.vector)[0] != c.md5(c.secret + k.vector)[0]
    ensures !AllDecode(c, k, undo, dict, ps, peek)
  {
    if Hides(ps[0]) {
      PairLost(c, k, undo, dict, ps[0], peek(|ps|));
    } else {
      SomeLost(c, k, undo, dict, ps[1..], peek);
    }
  }

  /** Message-Authenticators are not hidden. */
  predicate MacsBare(ps: seq<Pair>)
  {
    ps == [] || ((IsMac(ps[0]) ==> !Hides(ps[0])) && MacsBare(ps[1..]))
  }

  /** The pairs that travel are canonical, apart from the values of Message-Authenticators. */
  predicate AllRegular(dict: Dictionary, vps: seq<Pair>)
  {
    || vps == []
    || ((OnWire(vps[0]) ==> Canonical(dict, vps[0]) && PlainOrUserPassword(vps[0])) && AllRegular(dict, vps[1..]))
  }

  /** Some pair that travels is hidden. */
  predicate SendsHidden(vps: seq<Pair>)
  {
    vps != [] && ((OnWire(vps[0]) && Hides(vps[0])) || SendsHidden(vps[1..]))
  }

  lemma {:induction false} MeantIs(c: Context, m: Digest, dict: Dictionary, vps: seq<Pair>)
    requires PlainMacs(vps) && AllRegular(dict, vps)
    ensures AllCanonical(dict, Meant(c, m, vps)) && MacsBare(Meant(c, m, vps))
    ensures HidesSome(Meant(c, m, vps)) <==> SendsHidden(vps)
  {
    if vps != [] {
      MeantIs(c, m, dict, vps[1..]);
      if OnWire(vps[0]) {
        assert Meant(c, m, vps)[0] == Stamped(c, m, vps) && Meant(c, m, vps)[1..] == Meant(c, m, vps[1..]);
      }
    }
  }
}
