/**
 The octets of packets as sections 3, 5 and 5.26 of RFC 2865 lay them out, in numbers: what rad_send writes,
 what rad_recv accepts and what rad_decode reads (radius.c).
 */
module Layout {
  import opened Octets
  import opened Wire
  import opened Password
  import opened Attributes
  import opened Send
  import opened Receive
  import opened Decode
  import opened Signature
  import opened Transmit
  import opened Values

  // ---------------------------------------------------------------- what is sent

  /** A number in network byte order. */
  lemma WordOctets(v: word)
    ensures ToBe32(v) == [v / 0x100_0000, v / 0x1_0000 % 256, v / 256 % 256, v % 256]
  {
    HighOctet(v);
    ThirdOctet(v);
    LowOctet(v);
    assert v / 0x1_0000 < 0x1_0000;
  }

  lemma HighOctet(v: word)
    ensures v / 0x1_0000 / 256 == v / 0x100_0000
  {
  }

  lemma ThirdOctet(v: word)
    ensures v % 0x1_0000 / 256 == v / 256 % 256
  {
    var q, r := v / 0x1_0000, v % 0x1_0000;
    assert v == q * 0x1_0000 + r;
    assert v / 256 == q * 256 + r / 256;
  }

  lemma HalfOctets(v: nat)
    requires v < 0x1_0000
    ensures ToBe32(v) == [0, 0, v / 256, v % 256]
  {
    WordOctets(v);
  }

  /** Code, identifier and length stand in the first four octets, whatever is signed behind them. */
  lemma PacketOctets(cr: Crypto, c: Context, code: byte, id: byte, original: Option<Digest>, vps: seq<Pair>)
    requires Signable(c, vps)
    ensures var s := Sent(cr, c, code, id, original, vps);
            s[0] == code && s[1] == id && s[2] as int * 256 + s[3] as int == |s|
  {
    var data := Serialised(c, code, id, vps);
    MacInsideSerialised(c, code, id, vps);
    SignKeepsFront(cr, code, c.vector, original, c.secret, data, MacOffset(c, vps, HEADER_LEN, 0));
    FrontOctets(Sent(cr, c, code, id, original, vps), data, code, id, FirstVector(code, c.vector),
                EmitAll(c, vps)[..CountAll(c, vps)]);
  }

  lemma FrontOctets(s: seq<byte>, data: seq<byte>, code: byte, id: byte, vector: Digest, body: seq<byte>)
    requires 20 <= |data| == |s| < 0x1_0000 && s[..4] == data[..4]
    requires data == PacketHeader(code, id, |data|, vector) + body
    ensures s[0] == code && s[1] == id && s[2] as int * 256 + s[3] as int == |s|
  {
    var n := ToBe16(|s|);
    assert s[0] == s[..4][0] && s[1] == s[..4][1] && s[2] == s[..4][2] && s[3] == s[..4][3];
    assert data[0] == data[..4][0] && data[1] == data[..4][1] && data[2] == data[..4][2] && data[3] == data[..4][3];
    assert data[0] == code && data[1] == id && data[2] == n[0] && data[3] == n[1];
  }

  lemma SignKeepsFront(cr: Crypto, code: int, vector: Digest, original: Option<Digest>, secret: seq<byte>,
                       data: seq<byte>, at: nat)
    requires 20 <= |data| && (at != 0 ==> MacInside(data, at))
    ensures Sign(cr, code, vector, original, secret, data, at)[..4] == data[..4]
  {
    if at != 0 {
      var d := if CoversRequest(code) && original.Some? then WithVector(data, original.value) else data;
      assert d[..4] == data[..4];
      var text := MacText(code, original, data, at);
      FrontOfSplice(d, at + 2, Zeros(16));
      FrontOfSplice(text, at + 2, cr.hmac(secret, text));
    }
  }

  lemma FrontOfSplice(d: seq<byte>, at: nat, s: seq<byte>)
    requires 4 <= at && at + |s| <= |d|
    ensures Splice(d, at, s)[..4] == d[..4]
  {
  }

  /** The octets of one pair with payload `s` that fits: type and length; for a vendor's pair 26, length, the vendor
      and the vendor's own type and length; for a pair of vendor 429 a type of four octets and no second length. */
  lemma PairOctets(c: Context, p: Pair)
    requires Fits(c, p)
    ensures var v, t, s := p.attribute / 0x1_0000, p.attribute % 0x1_0000, Payload(c, p);
            Emit(c, p)
            == if v == 0 then [t % 256, 2 + |s|] + s
               else if v == 429 then [26, 10 + |s|, 0, 0, 1, 173, 0, 0, t / 256, t % 256] + s
               else [26, 8 + |s|, 0, 0, v / 256, v % 256, t % 256, 2 + |s|] + s
  {
    HeaderOctets(p, |Payload(c, p)|);
  }

  lemma HeaderOctets(p: Pair, n: nat)
    requires n <= Room(p)
    ensures var v, t := p.attribute / 0x1_0000, p.attribute % 0x1_0000;
            Header(p, n) == if v == 0 then [t % 256, 2 + n]
                            else if v == 429 then [26, 10 + n, 0, 0, 1, 173, 0, 0, t / 256, t % 256]
                            else [26, 8 + n, 0, 0, v / 256, v % 256, t % 256, 2 + n]
  {
    LowOctet(p.attribute);
    HalfOctets(p.attribute / 0x1_0000);
    HalfOctets(p.attribute % 0x1_0000);
  }

  lemma LowOctet(a: word)
    ensures a % 0x1_0000 % 256 == a % 256
  {
  }

  /** Numbers beyond 255 are not sent unless they name a vendor. */
  lemma InternalIsNotSent(c: Context, p: Pair)
    ensures EmitAll(c, [p]) == [] <==> 0x100 <= p.attribute < 0x1_0000
  {
    assert [p][1..] == [];
    assert Emit(c, p) != [];
  }

  /** Numbers and addresses are four octets; a tagged number gives its first one to the tag, 0 if that is not
      between 1 and 31. */
  lemma NumberOctets(c: Context, p: Pair)
    requires p.typ.Integer? || p.typ.IpAddr? || p.typ.Date?
    ensures var v := p.lvalue;
            Payload(c, p)
            == [if !(p.hasTag && p.typ.Integer?) then v / 0x100_0000 else if 1 <= p.tag <= 31 then p.tag else 0,
                v / 0x1_0000 % 256, v / 256 % 256, v % 256]
  {
    WordOctets(p.lvalue);
    if p.hasTag && p.typ.Integer? {
      var tag: nat := if TagValid(p.tag) then p.tag else 0;
      var w, rest := TaggedInteger(p), p.lvalue % 0x100_0000;
      WordOctets(w);
      FirstOctet(rest, tag);
      assert p.lvalue == p.lvalue / 0x100_0000 * 0x100_0000 + rest;
      SameTail(rest, p.lvalue / 0x100_0000);
    }
  }

  lemma FirstOctet(rest: nat, tag: nat)
    requires rest < 0x100_0000 && tag < 256
    ensures (rest + tag * 0x100_0000) / 0x100_0000 == tag
    ensures (rest + tag * 0x100_0000) / 0x1_0000 % 256 == rest / 0x1_0000
    ensures (rest + tag * 0x100_0000) / 256 % 256 == rest / 256 % 256
    ensures (rest + tag * 0x100_0000) % 256 == rest % 256
  {
    SecondOctet(rest, tag);
    MiddleOctet(rest, tag);
  }

  lemma SecondOctet(rest: nat, tag: nat)
    requires rest < 0x100_0000 && tag < 256
    ensures (rest + tag * 0x100_0000) / 0x1_0000 % 256 == rest / 0x1_0000
  {
    assert (rest + tag * 0x100_0000) / 0x1_0000 == rest / 0x1_0000 + tag * 256;
  }

  lemma MiddleOctet(rest: nat, tag: nat)
    ensures (rest + tag * 0x100_0000) / 256 % 256 == rest / 256 % 256
  {
    var x := rest / 256;
    assert (rest + tag * 0x100_0000) / 256 == x + tag * 0x1_0000;
    Mod256(x, tag * 256);
  }

  lemma Mod256(x: nat, y: nat)
    ensures (x + y * 256) % 256 == x % 256
  {
  }

  lemma SameTail(rest: nat, high: nat)
    requires rest < 0x100_0000 && high < 256
    ensures (high * 0x100_0000 + rest) / 0x1_0000 % 256 == rest / 0x1_0000
    ensures (high * 0x100_0000 + rest) / 256 % 256 == rest / 256 % 256
    ensures (high * 0x100_0000 + rest) % 256 == rest % 256
  {
    FirstOctet(rest, high);
  }

  /** All other values go out as they are, behind a tag between 1 and 31; a User-Password, attribute 2, is hidden
      whatever its flag says; a tunnel password has a tag octet even if its tag is not valid; and the 16 octets of
      a Message-Authenticator, attribute 80, are the context's. */
  lemma TextOctets(c: Context, p: Pair)
    requires Stringy(p.typ)
    ensures var v := if p.attribute == 80 then c.mac else p.value;
            var tag := if p.hasTag && 1 <= p.tag <= 31 then [p.tag] else [];
            && (p.attribute == 2 || p.encrypt == 1 ==> Payload(c, p) == tag + Hidden(c.md5, c.secret, c.vector, v))
            && (p.attribute != 2 && p.encrypt !in {1, 2, 3} ==> Payload(c, p) == tag + v)
            && (p.attribute != 2 && p.encrypt == 2 ==>
                  Payload(c, p) == (if p.hasTag && tag == [] then [0] else tag) + c.other(2, v))
            && (p.attribute != 2 && p.encrypt == 3 ==> Payload(c, p) == tag + c.other(3, v))
  {
  }

  /** A payload has room for 253 octets, 247 in a vendor's and 245 in a USR pair; a longer one is written whole
      behind a length octet of 255, and 255 octets are counted for it. */
  lemma LongPayload(c: Context, p: Pair)
    ensures var v := p.attribute / 0x1_0000;
            Fits(c, p) <==> |Payload(c, p)| <= if v == 0 then 253 else if v == 429 then 245 else 247
    ensures !Fits(c, p) ==>
              Counted(c, p) == 255 && Emit(c, p)[1] == 255 && Emit(c, p)[Overhead(p)..] == Payload(c, p)
  {
  }

  /** rad_send fails exactly if the packet is beyond 4096 octets when it comes to a pair that is sent. */
  lemma SendableExactly(c: Context, vps: seq<Pair>)
    ensures Sendable(c, vps, 20)
            <==> forall k :: 0 <= k < |vps| && OnWire(vps[k]) ==> 20 + CountAll(c, vps[..k]) <= 4096
  {
    SendableFrom(c, vps, 20);
    assert forall k :: 0 <= k < |vps| ==>
             (InTime(c, vps, 20, k) <==> (OnWire(vps[k]) ==> 20 + CountAll(c, vps[..k]) <= 4096));
  }

  predicate InTime(c: Context, vps: seq<Pair>, total: nat, k: nat)
    requires k < |vps|
  {
    OnWire(vps[k]) ==> total + CountAll(c, vps[..k]) <= 4096
  }

  /** The pair behind the first is in time for the rest exactly if it is in time for the whole list. */
  lemma InTimeLater(c: Context, vps: seq<Pair>, total: nat, k: nat)
    requires k + 1 < |vps|
    ensures var n := if OnWire(vps[0]) then Counted(c, vps[0]) else 0;
            InTime(c, vps[1..], total + n, k) <==> InTime(c, vps, total, k + 1)
  {
    assert vps[..k + 1][1..] == vps[1..][..k] && vps[1..][k] == vps[k + 1];
  }

  lemma {:induction false} SendableFrom(c: Context, vps: seq<Pair>, total: nat)
    ensures Sendable(c, vps, total) <==> forall k :: 0 <= k < |vps| ==> InTime(c, vps, total, k)
  {
    if vps != [] {
      var rest, total' := vps[1..], total + if OnWire(vps[0]) then Counted(c, vps[0]) else 0;
      SendableFrom(c, rest, total');
      forall k | 0 <= k < |rest| ensures InTime(c, rest, total', k) <==> InTime(c, vps, total, k + 1) {
        InTimeLater(c, vps, total, k);
      }
      assert vps[..0] == [] && (InTime(c, vps, total, 0) <==> (OnWire(vps[0]) ==> total <= 4096));
      if Sendable(c, vps, total) {
        forall k | 0 <= k < |vps| ensures InTime(c, vps, total, k) {
          if k > 0 {
            assert InTime(c, rest, total', k - 1);
          }
        }
      } else if InTime(c, vps, total, 0) {
        var k :| 0 <= k < |rest| && !InTime(c, rest, total', k);
        assert !InTime(c, vps, total, k + 1);
      }
    }
  }

  // ---------------------------------------------------------------- what is accepted

  /** The header: 20 to 4096 octets, a code between 1 and 51, and a length between 20 and what has arrived. */
  lemma HeaderAccepted(datagram: seq<byte>, maxAttributes: int)
    ensures Acceptable(datagram, maxAttributes) ==>
              && 20 <= |datagram| <= 4096 && 1 <= datagram[0] <= 51
              && 20 <= datagram[2] as int * 256 + datagram[3] as int <= |datagram|
    ensures |datagram| == 20 && 1 <= datagram[0] <= 51 && datagram[2] == 0 && datagram[3] == 20 ==>
              Acceptable(datagram, maxAttributes)
  {
    if |datagram| >= 20 {
      assert datagram[2..4][0] == datagram[2] && datagram[2..4][1] == datagram[3];
    }
  }

  /** One attribute behind the header: its length octet counts itself and the type, the type is not 0, an attribute
      80 has 16 octets of value, an attribute 79 is refused without one, and a Vendor-Specific one, attribute 26, has
      at least the vendor and is filled by sub-attributes unless the vendor is 429, which needs 6 octets. */
  lemma AttributeAccepted(datagram: seq<byte>, maxAttributes: int, typ: byte, body: seq<byte>)
    requires 22 + |body| == |datagram| <= 255 + 20 && 1 <= datagram[0] <= 51
    requires datagram[2] as int * 256 + datagram[3] as int == |datagram|
    requires datagram[20] == typ && datagram[21] == 2 + |body| && datagram[22..] == body
    ensures Acceptable(datagram, maxAttributes) <==>
              && typ != 0 && typ != 79 && (typ == 80 ==> |body| == 16)
              && (typ == 26 ==> |body| >= 4 && if body[..4] == [0, 0, 1, 173] then |body| >= 6 else Tiled(body[4..]))
  {
    var a := Attr(typ, body);
    assert datagram[2..4][0] == datagram[2] && datagram[2..4][1] == datagram[3];
    assert datagram[20..] == Tlv(a);
    assert datagram[20..|datagram|] == Tlv(a);
    TiledTriple(a);
    assert [a][1..] == [] && [a][0] == a;
    SingleHas(a, 79);
    SingleHas(a, 80);
    SaneMeans(a);
    assert AllSane([a]) <==> Sane(a);
  }

  lemma SaneMeans(a: Attr)
    ensures Sane(a) <==>
              && a.typ != 0 && (a.typ == 80 ==> |a.body| == 16)
              && (a.typ == 26 ==>
                    |a.body| >= 4
                    && if a.body[..4] == [0, 0, 1, 173] then |a.body| >= 6 else Tiled(a.body[4..]))
  {
    if |a.body| >= 4 {
      UsrOctets(a.body[..4]);
    }
  }

  lemma SingleHas(a: Attr, typ: byte)
    ensures Has([a], typ) <==> a.typ == typ
  {
    assert [a][0].typ == a.typ;
  }

  lemma UsrOctets(s: seq<byte>)
    requires |s| == 4
    ensures FromBe32(s) == 429 <==> s == [0, 0, 1, 173]
  {
    assert s[..2][0] == s[0] && s[..2][1] == s[1] && s[2..][0] == s[2] && s[2..][1] == s[3];
  }

  // ---------------------------------------------------------------- what is read

  /** A vendor's sub-attribute is numbered by the vendor's low 16 bits and its own type. */
  lemma VendorRead(vendor: seq<byte>, typ: byte, s: seq<byte>)
    requires |vendor| == 4 && vendor != [0, 0, 1, 173] && vendor != [0, 0, 0, 0] && 0 < |s| <= 247
    ensures Expand(Attr(26, vendor + [typ, 2 + |s|] + s))
         == [WireAttr(vendor[2] as int * 0x100_0000 + vendor[3] as int * 0x1_0000 + typ as int, s)]
  {
    var a, sub := Attr(26, vendor + [typ, 2 + |s|] + s), Attr(typ, s);
    assert a.body[..4] == vendor;
    assert a.body[4..] == Tlv(sub);
    TiledTriple(sub);
    UsrOctets(vendor);
    SpeltIs(vendor);
    OneItem(FromBe32(vendor), sub);
    NumberedIs(vendor, typ);
  }

  lemma OneItem(vendor: word, sub: Attr)
    ensures VendorItems(vendor, [sub]) == [WireAttr(Numbered(vendor, sub.typ), sub.body)]
  {
    assert [sub][1..] == [] && VendorItems(vendor, []) == [];
  }

  lemma NumberedIs(vendor: seq<byte>, typ: byte)
    requires |vendor| == 4
    ensures Numbered(Spelt(vendor), typ) as int
         == vendor[2] as int * 0x100_0000 + vendor[3] as int * 0x1_0000 + typ as int
  {
    LowHalf(vendor);
  }

  /** One of vendor 429 by the low 16 bits of four octets. */
  lemma UsrRead(number: seq<byte>, s: seq<byte>)
    requires |number| == 4 && |s| <= 245
    ensures Expand(Attr(26, [0, 0, 1, 173] + number + s))
         == [WireAttr(0x1ad_0000 + number[2] as int * 256 + number[3] as int, s)]
  {
    var usr: seq<byte> := [0, 0, 1, 173];
    var a := Attr(26, usr + number + s);
    assert a.body[..4] == usr && a.body[4..8] == number && a.body[8..] == s;
    UsrOctets(usr);
    SpeltIs(number);
    LowHalf(number);
  }

  lemma LowHalf(s: seq<byte>)
    requires |s| == 4
    ensures Spelt(s) as int % 0x1_0000 == s[2] as int * 256 + s[3] as int
  {
    var high, low := s[0] as int * 256 + s[1] as int, s[2] as int * 256 + s[3] as int;
    assert Spelt(s) == high * 0x1_0000 + low;
  }

  /** The loop meets a USR value that is too short exactly at 7 octets. */
  lemma UsrTooShortExactly(a: Attr)
    ensures UsrTooShort(a) <==> a.typ == 26 && |a.body| == 7 && a.body[..4] == [0, 0, 1, 173]
  {
    if |a.body| >= 4 {
      UsrOctets(a.body[..4]);
    }
  }

  /** Every other attribute is read as it is, a Vendor-Specific one too if it has at most 6 octets or names no
      vendor. */
  lemma PlainRead(a: Attr)
    requires a.typ != 26 || |a.body| <= 6 || a.body[..4] == [0, 0, 0, 0]
    ensures Expand(a) == [WireAttr(a.typ, a.body)]
  {
    if |a.body| > 6 {
      var v := a.body[..4];
      assert v[..2] == [v[0], v[1]] && v[2..] == [v[2], v[3]];
    }
  }

  /** Four octets of a number are a number in network byte order, of a tagged one three, behind the tag as a signed
      octet; any other length makes octets of it, with a value that is sure to look wrong. */
  lemma NumberRead(k: Keys, undo: Undo, dict: Dictionary, w: WireAttr, next: byte, e: Entry)
    requires dict(w.attribute) == Some(e) && (e.typ.Integer? || e.typ.Date? || e.typ.IpAddr?)
    ensures |w.payload| == 4 && !(e.hasTag && e.typ.Integer?) ==>
              DecodePair(k, undo, dict, w, next)
              == Decoded(Pair(w.attribute, e.typ, [], Spelt(w.payload), e.hasTag, 0, e.encrypt))
    ensures |w.payload| == 4 && e.hasTag && e.typ.Integer? ==>
              DecodePair(k, undo, dict, w, next)
              == Decoded(Pair(w.attribute, e.typ, [], Spelt([0] + w.payload[1..]), true,
                              if w.payload[0] < 128 then w.payload[0] as int else w.payload[0] as int - 256, e.encrypt))
    ensures |w.payload| != 4 ==>
              DecodePair(k, undo, dict, w, next)
              == Decoded(Pair(w.attribute, RawOctets, w.payload, 0xbad1bad1, e.hasTag, 0, e.encrypt))
  {
    if |w.payload| == 4 {
      SpeltIs(w.payload);
      var rest := Spelt([0] + w.payload[1..]);
      assert Spelt(w.payload) == w.payload[0] as int * 0x100_0000 + rest;
      FirstOctet(rest, w.payload[0]);
      assert Spelt(w.payload) % 0x100_0000 == rest;
    }
  }

  /** An attribute the dictionary does not know is its octets. */
  lemma UnknownRead(k: Keys, undo: Undo, dict: Dictionary, w: WireAttr, next: byte)
    requires dict(w.attribute).None? && w.attribute != 2
    ensures DecodePair(k, undo, dict, w, next) == Decoded(Pair(w.attribute, RawOctets, w.payload, 0, false, 0, 0))
  {
  }

  /** The number four octets spell, first octet first. */
  function Spelt(s: seq<byte>): (v: word)
    requires |s| == 4
  {
    s[0] as int * 0x100_0000 + s[1] as int * 0x1_0000 + s[2] as int * 256 + s[3] as int
  }

  lemma SpeltIs(s: seq<byte>)
    requires |s| == 4
    ensures FromBe32(s) == Spelt(s)
  {
    assert s[..2][0] == s[0] && s[..2][1] == s[1] && s[2..][0] == s[2] && s[2..][1] == s[3];
  }

  /** A tagged text gives up its first octet if that is between 1 and 31. */
  lemma TagRead(k: Keys, undo: Undo, dict: Dictionary, w: WireAttr, next: byte)
    requires dict(w.attribute) == Some(Entry(Text, true, 0)) && w.attribute != 2 && w.payload != []
    ensures DecodePair(k, undo, dict, w, next)
         == Decoded(if 1 <= w.payload[0] <= 31 then Pair(w.attribute, Text, w.payload[1..], 0, true, w.payload[0], 0)
                    else Pair(w.attribute, Text, w.payload, 0, true, 0, 0))
  {
  }

  /** The lengths of the types of IPv6: 8 octets, 16 octets, and 2 to 18 octets whose second is at most 128; others
      become octets. */
  lemma Ipv6Read(k: Keys, undo: Undo, dict: Dictionary, w: WireAttr, next: byte, typ: PairType)
    requires dict(w.attribute) == Some(Entry(typ, false, 0)) && (typ.IfId? || typ.Ipv6Addr? || typ.Ipv6Prefix?)
    ensures var good := if typ.IfId? then |w.payload| == 8 else if typ.Ipv6Addr? then |w.payload| == 16
                        else 2 <= |w.payload| <= 18 && w.payload[1] <= 128;
            DecodePair(k, undo, dict, w, next)
            == Decoded(Pair(w.attribute, if good then typ else RawOctets, w.payload, 0, false, 0, 0))
  {
  }

  // ---------------------------------------------------------------- the example of the standard

  const NEMO: seq<byte> := [0x6e, 0x65, 0x6d, 0x6f]
  const ARCTANGENT: seq<byte> := [0x61, 0x72, 0x63, 0x74, 0x61, 0x6e, 0x67, 0x65, 0x6e, 0x74]

  /** The Access-Request of section 7.1 of RFC 2865, with User-Name, User-Password, NAS-IP-Address and NAS-Port, as
      it is printed there but for the authenticator and the 16 octets that hide the password. */
  lemma TelnetRequest(cr: Crypto, c: Context, original: Option<Digest>, vps: seq<Pair>, parts: seq<seq<byte>>)
    requires c.mac == Zeros(16) && Telnet(c, vps, parts)
    ensures Signable(c, vps)
    ensures Sent(cr, c, 1, 0, original, vps) == [0x01, 0x00, 0x00, 0x38] + c.vector + Joined(parts)
  {
    TelnetCarried(c, vps, parts);
    TelnetLength(c, vps, parts);
    ListSent(cr, c, original, vps, parts, 0x00, 0x38);
  }

  predicate Telnet(c: Context, vps: seq<Pair>, parts: seq<seq<byte>>)
  {
    && |vps| == |parts| == 4
    && vps[0] == Pair(1, Text, NEMO, 0, false, 0, 0) && vps[1] == Pair(2, Text, ARCTANGENT, 0, false, 0, 1)
    && vps[2] == Pair(4, IpAddr, [], 0xc0a8_0110, false, 0, 0) && vps[3] == Pair(5, Integer, [], 3, false, 0, 0)
    && parts[0] == [0x01, 0x06, 0x6e, 0x65, 0x6d, 0x6f]
    && parts[1] == [0x02, 0x12] + Hidden(c.md5, c.secret, c.vector, ARCTANGENT)
    && parts[2] == [0x04, 0x06, 0xc0, 0xa8, 0x01, 0x10] && parts[3] == [0x05, 0x06, 0x00, 0x00, 0x00, 0x03]
  }

  lemma TelnetCarried(c: Context, vps: seq<Pair>, parts: seq<seq<byte>>)
    requires Telnet(c, vps, parts)
    ensures AllCarried(c, vps, parts)
  {
    TelnetUser(c, vps[0]);
    HiddenBlock(c.md5, c.secret, c.vector, ARCTANGENT);
    PasswordSent(c, vps[1], parts[1], Hidden(c.md5, c.secret, c.vector, ARCTANGENT));
    TelnetPort(c, vps[2], vps[3]);
  }

  lemma TelnetLength(c: Context, vps: seq<Pair>, parts: seq<seq<byte>>)
    requires Telnet(c, vps, parts)
    ensures |Joined(parts)| == 36
  {
    HiddenBlock(c.md5, c.secret, c.vector, ARCTANGENT);
    JoinedFour(parts);
  }

  lemma HiddenBlock(md5: Hash, secret: seq<byte>, vector: Digest, password: seq<byte>)
    requires 0 < |password| <= 16
    ensures |Hidden(md5, secret, vector, password)| == 16
  {
  }

  lemma TelnetUser(c: Context, p: Pair)
    requires p == Pair(1, Text, NEMO, 0, false, 0, 0)
    ensures Carries(c, p, [0x01, 0x06, 0x6e, 0x65, 0x6d, 0x6f])
  {
    TextSent(c, p, [0x01, 0x06, 0x6e, 0x65, 0x6d, 0x6f]);
  }

  lemma TelnetPort(c: Context, p: Pair, p': Pair)
    requires p == Pair(4, IpAddr, [], 0xc0a8_0110, false, 0, 0) && p' == Pair(5, Integer, [], 3, false, 0, 0)
    ensures Carries(c, p, [0x04, 0x06, 0xc0, 0xa8, 0x01, 0x10])
    ensures Carries(c, p', [0x05, 0x06, 0x00, 0x00, 0x00, 0x03])
  {
    NumberSent(c, p, [0x04, 0x06, 0xc0, 0xa8, 0x01, 0x10]);
    NumberSent(c, p', [0x05, 0x06, 0x00, 0x00, 0x00, 0x03]);
  }

  /** The octets of a pair without vendor. */
  predicate Carries(c: Context, p: Pair, s: seq<byte>)
  {
    0 < p.attribute < 80 && |Payload(c, p)| + 2 == |s| <= 255 && s == [p.attribute, |s|] + Payload(c, p)
  }

  lemma TextSent(c: Context, p: Pair, s: seq<byte>)
    requires 0 < p.attribute < 80 && p.attribute != 2 && p.typ.Text? && !p.hasTag && p.encrypt == 0
    requires |p.value| <= 253 && s == [p.attribute, 2 + |p.value|] + p.value
    ensures Carries(c, p, s)
  {
    TextOctets(c, p);
    assert [] + p.value == p.value;
  }

  lemma PasswordSent(c: Context, p: Pair, s: seq<byte>, hidden: seq<byte>)
    requires p.attribute == 2 && p.typ.Text? && !p.hasTag && hidden == Hidden(c.md5, c.secret, c.vector, p.value)
    requires |hidden| <= 253 && s == [2, 2 + |hidden|] + hidden
    ensures Carries(c, p, s)
  {
    TextOctets(c, p);
    assert [] + hidden == hidden;
  }

  lemma NumberSent(c: Context, p: Pair, s: seq<byte>)
    requires 0 < p.attribute < 80 && (p.typ.Integer? || p.typ.IpAddr?) && !p.hasTag
    requires s == [p.attribute, 6, p.lvalue / 0x100_0000, p.lvalue / 0x1_0000 % 256, p.lvalue / 256 % 256,
                   p.lvalue % 256]
    ensures Carries(c, p, s)
  {
    NumberOctets(c, p);
  }

  ghost predicate AllCarried(c: Context, vps: seq<Pair>, parts: seq<seq<byte>>)
  {
    |vps| == |parts| && forall i :: 0 <= i < |vps| ==> Carries(c, vps[i], parts[i])
  }

  function Joined(parts: seq<seq<byte>>): (s: seq<byte>)
  {
    if parts == [] then [] else parts[0] + Joined(parts[1..])
  }

  lemma JoinedFour(parts: seq<seq<byte>>)
    requires |parts| == 4
    ensures Joined(parts) == parts[0] + (parts[1] + (parts[2] + parts[3]))
  {
    var p1, p2, p3 := parts[1..], parts[2..], parts[3..];
    assert p1[1..] == p2 && p2[1..] == p3 && p3[1..] == [];
    assert p1[0] == parts[1] && p2[0] == parts[2] && p3[0] == parts[3];
    assert parts[3] + [] == parts[3];
    assert Joined(p3) == parts[3] + Joined([]);
    assert Joined(p2) == parts[2] + Joined(p3);
    assert Joined(p1) == parts[1] + Joined(p2);
  }

  lemma {:induction false} ListCarried(c: Context, vps: seq<Pair>, parts: seq<seq<byte>>)
    requires AllCarried(c, vps, parts)
    ensures EmitAll(c, vps) == Joined(parts) && CountAll(c, vps) == |Joined(parts)| && MacCount(vps) == 0
  {
    if vps != [] {
      EmitsOne(c, vps, parts[0]);
      ListCarried(c, vps[1..], parts[1..]);
    }
  }

  lemma TwoOctets(high: byte, low: byte)
    ensures (high as int * 256 + low as int) / 256 == high as int
    ensures (high as int * 256 + low as int) % 256 == low as int
  {
  }

  /** A list of such pairs in an Access-Request. */
  lemma ListSent(cr: Crypto, c: Context, original: Option<Digest>, vps: seq<Pair>, parts: seq<seq<byte>>,
                 high: byte, low: byte)
    requires c.mac == Zeros(16) && AllCarried(c, vps, parts)
    requires high as int * 256 + low as int == 20 + |Joined(parts)|
    ensures Signable(c, vps)
    ensures Sent(cr, c, 1, 0, original, vps) == [1, 0, high, low] + c.vector + Joined(parts)
  {
    ListCarried(c, vps, parts);
    TwoOctets(high, low);
    RequestOctets(cr, c, 0, original, vps);
  }

  /** The octets of the first pair of a list. */
  lemma EmitsOne(c: Context, vps: seq<Pair>, s: seq<byte>)
    requires vps != [] && Carries(c, vps[0], s)
    ensures EmitAll(c, vps) == s + EmitAll(c, vps[1..])
    ensures CountAll(c, vps) == |s| + CountAll(c, vps[1..])
    ensures MacCount(vps) == MacCount(vps[1..])
  {
    CarriesIs(c, vps[0], s);
  }

  lemma CarriesIs(c: Context, p: Pair, s: seq<byte>)
    requires Carries(c, p, s)
    ensures Emit(c, p) == s && Counted(c, p) == |s| && OnWire(p) && !IsMac(p)
  {
    assert Vendor(p) == 0;
  }

  /** An Access-Request without Message-Authenticator is its header and its pairs. */
  lemma RequestOctets(cr: Crypto, c: Context, id: byte, original: Option<Digest>, vps: seq<Pair>)
    requires c.mac == Zeros(16) && MacCount(vps) == 0
    requires CountAll(c, vps) == |EmitAll(c, vps)| < 0x1_0000 - 20
    ensures Signable(c, vps)
    ensures var n := 20 + |EmitAll(c, vps)|;
            Sent(cr, c, 1, id, original, vps) == [1, id, n / 256, n % 256] + c.vector + EmitAll(c, vps)
  {
    var n := 20 + CountAll(c, vps);
    MacInsideSerialised(c, 1, id, vps);
    assert EmitAll(c, vps)[..CountAll(c, vps)] == EmitAll(c, vps);
    assert [1, id] + ToBe16(n) == [1, id, n / 256, n % 256];
  }
}
