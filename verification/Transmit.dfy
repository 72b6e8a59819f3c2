/**
 rad_send as a whole, and what a receiver reads from the packet it produces (radius.c).
 */
module Transmit {
  import opened Octets
  import opened Wire
  import opened Attributes
  import opened Send
  import opened Receive
  import opened Decode
  import opened Signature
  import opened Agreement

  // ---------------------------------------------------------------- lists of pairs on the wire

  /** The attributes of the grammar a list of pairs stands for. */
  function Attrs(c: Context, vps: seq<Pair>): (r: seq<Attr>)
    requires AllFit(c, vps)
  {
    if vps == [] then []
    else if !OnWire(vps[0]) then Attrs(c, vps[1..])
    else [ToAttr(c, vps[0])] + Attrs(c, vps[1..])
  }

  /** The pairs that go on the wire, as a receiver numbers them. */
  function Carried(c: Context, vps: seq<Pair>): (r: seq<WireAttr>)
  {
    if vps == [] then []
    else if !OnWire(vps[0]) then Carried(c, vps[1..])
    else [WireAttr(vps[0].attribute, Payload(c, vps[0]))] + Carried(c, vps[1..])
  }

  lemma {:induction false} EmitAllIsFlat(c: Context, vps: seq<Pair>)
    requires AllFit(c, vps)
    ensures EmitAll(c, vps) == Flat(Attrs(c, vps))
  {
    if vps != [] {
      EmitAllIsFlat(c, vps[1..]);
      if OnWire(vps[0]) {
        EmitIsTlv(c, vps[0]);
        assert Attrs(c, vps)[1..] == Attrs(c, vps[1..]);
      }
    }
  }

  /** A Message-Authenticator of a type that is copied, without tag and not hidden. */
  predicate PlainMac(p: Pair)
  {
    Stringy(p.typ) && TagOctets(p) == [] && Encryption(p) !in {1, 2, 3}
  }

  predicate IsMac(p: Pair)
  {
    p.attribute == MESSAGE_AUTHENTICATOR as int
  }

  /** A Vendor-Specific attribute that is sane and read as it is. */
  predicate Whole(a: Attr)
  {
    Sane(a) && !Opened(a)
  }

  /** The number of a pair survives the wire: it is not zero, a plain Vendor-Specific attribute is sane
      and not opened, a vendor's number fits its octet and its payload is not empty. */
  predicate Numberable(c: Context, p: Pair)
  {
    if Vendor(p) == 0 then
      p.attribute != 0
      && (p.attribute == VENDOR_SPECIFIC as int ==> Fits(c, p) && Whole(Attr(VENDOR_SPECIFIC, Payload(c, p))))
    else Vendor(p) == USR || (p.attribute % 0x1_0000 < 256 && Payload(c, p) != [])
  }

  predicate AllNumberable(c: Context, vps: seq<Pair>)
  {
    vps == [] || ((OnWire(vps[0]) ==> Numberable(c, vps[0]) && (IsMac(vps[0]) ==> PlainMac(vps[0])))
                  && AllNumberable(c, vps[1..]))
  }

  lemma VendorOfShape(p: Pair, s: seq<byte>)
    requires |s| <= Room(p) && Vendor(p) != 0
    ensures |Shape(p, s).body| >= 6 && VendorOf(Shape(p, s)) == Vendor(p)
    ensures Vendor(p) != USR ==> Shape(p, s).body[4..] == Tlv(Attr(p.attribute % 256, s))
    ensures Vendor(p) == USR ==> Shape(p, s).body[4..8] == ToBe32(p.attribute % 0x1_0000) && Shape(p, s).body[8..] == s
  {
    var v := ToBe32(Vendor(p));
    assert Shape(p, s).body[..4] == v;
    if Vendor(p) == USR {
      var w := ToBe32(p.attribute % 0x1_0000);
      assert v + w + s == v + (w + s);
      assert Shape(p, s).body[4..8] == w;
    }
  }

  lemma TiledTriple(a: Attr)
    ensures Tiled(Tlv(a)) && Items(Tlv(a)) == [a]
  {
    ItemsOfFlat([a]);
    assert Flat([a]) == Tlv(a) + [] == Tlv(a);
  }

  /** What a receiver makes of one attribute. */
  datatype Reading = Reading(sane: bool, faulty: bool, attributes: seq<WireAttr>)

  function Read(a: Attr): (r: Reading)
  {
    Reading(Sane(a), UsrTooShort(a), Expand(a))
  }

  /** How the receiver reads a vendor's pair with payload `s`. */
  lemma ReadsVendor(p: Pair, s: seq<byte>)
    requires |s| <= Room(p) && Vendor(p) != 0 && Vendor(p) != USR
    ensures Read(Shape(p, s)) == Reading(true, false,
              [if s != [] then WireAttr(Numbered(Vendor(p), p.attribute % 256), s)
               else WireAttr(VENDOR_SPECIFIC, Shape(p, s).body)])
  {
    VendorOfShape(p, s);
    var inner := Attr(p.attribute % 256, s);
    TiledTriple(inner);
    assert [inner][1..] == [];
    assert VendorItems(Vendor(p), [inner]) == [WireAttr(Numbered(Vendor(p), inner.typ), s)];
  }

  lemma ReadsUsr(p: Pair, s: seq<byte>)
    requires |s| <= Room(p) && Vendor(p) == USR
    ensures Read(Shape(p, s)) == Reading(true, false, [WireAttr(p.attribute, s)])
  {
    VendorOfShape(p, s);
  }

  lemma ReadsPlain(p: Pair, s: seq<byte>)
    requires |s| <= Room(p) && Vendor(p) == 0 && OnWire(p) && (IsMac(p) ==> |s| == 16)
    ensures Read(Shape(p, s)) == Reading(true, false, [WireAttr(p.attribute, s)]) <==>
            p.attribute != 0
            && (p.attribute == VENDOR_SPECIFIC as int ==> Whole(Attr(VENDOR_SPECIFIC, s)))
  {
    if p.attribute == VENDOR_SPECIFIC as int && Opened(Attr(VENDOR_SPECIFIC, s)) {
      OpenedIsNotWhole(Attr(VENDOR_SPECIFIC, s));
    }
  }

  /** An opened attribute is not read as itself: what is read from it is shorter. */
  lemma OpenedIsNotWhole(a: Attr)
    requires Opened(a)
    ensures Expand(a) != [WireAttr(a.typ, a.body)]
  {
    if VendorOf(a) != USR && Tiled(a.body[4..]) {
      var subs := Items(a.body[4..]);
      FlatOfItems(a.body[4..]);
      if |subs| == 1 {
        assert subs == [subs[0]] && subs[1..] == [];
        assert Flat(subs) == Tlv(subs[0]) + [];
        assert VendorItems(VendorOf(a), subs)[0].payload == subs[0].body;
      } else if |subs| > 1 {
        VendorItemsLength(VendorOf(a), subs);
      }
    }
  }

  lemma {:induction false} VendorItemsLength(vendor: word, subs: seq<Attr>)
    ensures |VendorItems(vendor, subs)| == |subs|
  {
    if subs != [] {
      VendorItemsLength(vendor, subs[1..]);
    }
  }

  /** A pair is a sane attribute that the receiver reads as that pair exactly when it is numberable. */
  lemma ReadsBackExactly(c: Context, p: Pair)
    requires OnWire(p) && Fits(c, p) && (IsMac(p) ==> PlainMac(p))
    ensures Read(ToAttr(c, p)) == Reading(true, false, [WireAttr(p.attribute, Payload(c, p))]) <==> Numberable(c, p)
  {
    if Vendor(p) == USR {
      ReadsUsr(p, Payload(c, p));
    } else if Vendor(p) != 0 {
      ReadsVendor(p, Payload(c, p));
      NumberSurvives(p);
    } else {
      if IsMac(p) {
        PayloadOfMac(c, p);
      }
      ReadsPlain(p, Payload(c, p));
    }
  }

  lemma {:induction false} AllReadBack(c: Context, vps: seq<Pair>)
    requires AllFit(c, vps) && AllNumberable(c, vps)
    ensures AllSane(Attrs(c, vps)) && NoShortUsr(Attrs(c, vps))
    ensures ExpandAll(Attrs(c, vps)) == Carried(c, vps)
  {
    if vps != [] {
      AllReadBack(c, vps[1..]);
      if OnWire(vps[0]) {
        ReadsBackExactly(c, vps[0]);
        assert Attrs(c, vps)[1..] == Attrs(c, vps[1..]);
      }
    }
  }

  lemma NumberSurvives(p: Pair)
    requires Vendor(p) != 0
    ensures p.attribute != VENDOR_SPECIFIC as int
    ensures Numbered(Vendor(p), p.attribute % 256) == p.attribute <==> p.attribute % 0x1_0000 < 256
  {
    var low := p.attribute % 0x1_0000;
    assert p.attribute == Vendor(p) * 0x1_0000 + low;
    assert p.attribute % 256 == low % 256;
  }

  // ---------------------------------------------------------------- the Message-Authenticator of a list

  function MacCount(vps: seq<Pair>): (n: nat)
  {
    if vps == [] then 0 else (if IsMac(vps[0]) then 1 else 0) + MacCount(vps[1..])
  }

  predicate PlainMacs(vps: seq<Pair>)
  {
    vps == [] || ((IsMac(vps[0]) ==> PlainMac(vps[0])) && PlainMacs(vps[1..]))
  }

  lemma PayloadOfMac(c: Context, p: Pair)
    requires IsMac(p) && PlainMac(p)
    ensures Payload(c, p) == c.mac && OnWire(p)
  {
    assert [] + c.mac == c.mac;
  }

  lemma ShapeOf(p: Pair, s: seq<byte>)
    requires |s| <= Room(p) && OnWire(p)
    ensures 2 + |Shape(p, s).body| == Overhead(p) + |s|
    ensures Shape(p, s).typ == MESSAGE_AUTHENTICATOR <==> IsMac(p)
    ensures IsMac(p) ==> Shape(p, s) == Attr(MESSAGE_AUTHENTICATOR, s)
  {
    HeaderIsTlv(p, s);
  }

  lemma ToAttrIs(c: Context, p: Pair)
    requires OnWire(p) && Fits(c, p) && (IsMac(p) ==> PlainMac(p))
    ensures Counted(c, p) == 2 + |ToAttr(c, p).body|
    ensures ToAttr(c, p).typ == MESSAGE_AUTHENTICATOR <==> IsMac(p)
    ensures IsMac(p) ==> |ToAttr(c, p).body| == 16
  {
    ShapeOf(p, Payload(c, p));
    if IsMac(p) {
      PayloadOfMac(c, p);
    }
  }

  lemma {:induction false} MacsOnWire(c: Context, vps: seq<Pair>)
    requires AllFit(c, vps) && PlainMacs(vps)
    ensures MacsFull(Attrs(c, vps)) && (HasMac(Attrs(c, vps)) <==> MacCount(vps) > 0)
  {
    if vps != [] {
      MacsOnWire(c, vps[1..]);
      if OnWire(vps[0]) {
        ToAttrIs(c, vps[0]);
        assert Attrs(c, vps)[1..] == Attrs(c, vps[1..]);
      }
    }
  }

  /** The pairs that go on the wire, as a receiver numbers them, once the last Message-Authenticator
      holds `m`. */
  function Arrived(c: Context, m: Digest, vps: seq<Pair>): (r: seq<WireAttr>)
  {
    if vps == [] then []
    else if !OnWire(vps[0]) then Arrived(c, m, vps[1..])
    else if IsMac(vps[0]) && MacCount(vps[1..]) == 0
    then [WireAttr(MESSAGE_AUTHENTICATOR, m)] + Carried(c, vps[1..])
    else [WireAttr(vps[0].attribute, Payload(c, vps[0]))] + Arrived(c, m, vps[1..])
  }

  /** Filling in the last Message-Authenticator leaves the attributes sane and changes only its value. */
  lemma {:induction false} StampedReadsBack(c: Context, m: Digest, vps: seq<Pair>)
    requires AllFit(c, vps) && AllNumberable(c, vps) && PlainMacs(vps)
    ensures var s := SetLastMac(Attrs(c, vps), m);
            AllSane(s) && NoShortUsr(s) && ExpandAll(s) == Arrived(c, m, vps)
  {
    if vps != [] {
      StampedReadsBack(c, m, vps[1..]);
      if OnWire(vps[0]) {
        StampedFirst(c, m, vps);
      }
    }
  }

  lemma StampedFirst(c: Context, m: Digest, vps: seq<Pair>)
    requires vps != [] && OnWire(vps[0]) && AllFit(c, vps) && AllNumberable(c, vps) && PlainMacs(vps)
    requires var s := SetLastMac(Attrs(c, vps[1..]), m);
             AllSane(s) && NoShortUsr(s) && ExpandAll(s) == Arrived(c, m, vps[1..])
    ensures var s := SetLastMac(Attrs(c, vps), m);
            AllSane(s) && NoShortUsr(s) && ExpandAll(s) == Arrived(c, m, vps)
  {
    var attrs, rest := Attrs(c, vps), Attrs(c, vps[1..]);
    var s := SetLastMac(attrs, m);
    assert attrs[0] == ToAttr(c, vps[0]) && attrs[1..] == rest;
    ToAttrIs(c, vps[0]);
    MacsOnWire(c, vps[1..]);
    ReadsBackExactly(c, vps[0]);
    if IsMac(vps[0]) && MacCount(vps[1..]) == 0 {
      AllReadBack(c, vps[1..]);
      assert s[0] == Attr(MESSAGE_AUTHENTICATOR, m) && s[1..] == rest;
    } else {
      assert s[0] == attrs[0] && s[1..] == SetLastMac(rest, m);
    }
  }

  function LastOr(s: seq<nat>, n: nat): (r: nat)
  {
    if s == [] then n else s[|s| - 1]
  }

  lemma {:induction false} OffsetsCount(c: Context, vps: seq<Pair>, off: nat)
    requires AllFit(c, vps) && PlainMacs(vps)
    ensures |Offsets(Attrs(c, vps), off)| == MacCount(vps)
    decreases |vps|
  {
    if vps != [] {
      if OnWire(vps[0]) {
        ToAttrIs(c, vps[0]);
        assert Attrs(c, vps)[1..] == Attrs(c, vps[1..]);
        OffsetsCount(c, vps[1..], off + 2 + |ToAttr(c, vps[0]).body|);
      } else {
        OffsetsCount(c, vps[1..], off);
      }
    }
  }

  /** rad_send records the offset of the last Message-Authenticator. */
  lemma {:induction false} MacOffsetIsLast(c: Context, vps: seq<Pair>, off: nat, last: nat)
    requires AllFit(c, vps) && PlainMacs(vps)
    ensures MacOffset(c, vps, off, last) == LastOr(Offsets(Attrs(c, vps), off), last)
    decreases |vps|
  {
    if vps != [] {
      var p := vps[0];
      if OnWire(p) {
        ToAttrIs(c, p);
        assert Attrs(c, vps)[0] == ToAttr(c, p) && Attrs(c, vps)[1..] == Attrs(c, vps[1..]);
        MacOffsetIsLast(c, vps[1..], off + Counted(c, p), if IsMac(p) then off else last);
      } else {
        MacOffsetIsLast(c, vps[1..], off, last);
      }
    }
  }

  // ---------------------------------------------------------------- the packet

  predicate HasNumber(vps: seq<Pair>, number: byte)
  {
    vps != [] && (vps[0].attribute == number as int || HasNumber(vps[1..], number))
  }

  lemma ShapeTyp(p: Pair, s: seq<byte>, number: byte)
    requires |s| <= Room(p) && OnWire(p) && number != VENDOR_SPECIFIC
    ensures Shape(p, s).typ == number <==> p.attribute == number as int
  {
  }

  lemma {:induction false} HasNumberOnWire(c: Context, vps: seq<Pair>, number: byte)
    requires AllFit(c, vps) && number != VENDOR_SPECIFIC
    ensures Has(Attrs(c, vps), number) <==> HasNumber(vps, number)
  {
    if vps != [] {
      HasNumberOnWire(c, vps[1..], number);
      if OnWire(vps[0]) {
        HasSplit(Attrs(c, vps), number);
        assert Attrs(c, vps)[1..] == Attrs(c, vps[1..]);
        ShapeTyp(vps[0], Payload(c, vps[0]), number);
      }
    }
  }

  lemma {:induction false} MacNumber(vps: seq<Pair>)
    ensures MacCount(vps) > 0 <==> HasNumber(vps, MESSAGE_AUTHENTICATOR)
  {
    if vps != [] {
      MacNumber(vps[1..]);
    }
  }

  function PacketHeader(code: byte, id: byte, total: nat, vector: Digest): (h: seq<byte>)
    requires total < 0x1_0000
    ensures |h| == HEADER_LEN
  {
    [code, id] + ToBe16(total) + vector
  }

  /** The packet before signing; the context's vector is the packet's.  What exceeds the counted length
      is cut off. */
  function Serialised(c: Context, code: byte, id: byte, vps: seq<Pair>): (s: seq<byte>)
    requires HEADER_LEN + CountAll(c, vps) < 0x1_0000
    ensures |s| == HEADER_LEN + CountAll(c, vps)
    ensures VectorOf(s) == FirstVector(code, c.vector)
    ensures CountAll(c, vps) <= |EmitAll(c, vps)| && s[HEADER_LEN..] == EmitAll(c, vps)[..CountAll(c, vps)]
  {
    FramingExactlyWhenAllFit(c, vps);
    PacketHeader(code, id, HEADER_LEN + CountAll(c, vps), FirstVector(code, c.vector))
    + EmitAll(c, vps)[..CountAll(c, vps)]
  }

  /** The 16 octets behind the header of the last Message-Authenticator lie inside the packet. */
  predicate RoomForMac(c: Context, vps: seq<Pair>)
  {
    MacCount(vps) > 0 ==> MacOffset(c, vps, HEADER_LEN, 0) + 18 <= HEADER_LEN + CountAll(c, vps)
  }

  /** Lists rad_send can sign. */
  predicate Signable(c: Context, vps: seq<Pair>)
  {
    RoomForMac(c, vps) && c.mac == Zeros(16) && HEADER_LEN + CountAll(c, vps) < 0x1_0000
  }

  lemma {:induction false} MacOffsetInside(c: Context, vps: seq<Pair>, off: nat, last: nat)
    ensures MacCount(vps) == 0 ==> MacOffset(c, vps, off, last) == last
    ensures MacCount(vps) > 0 ==> off <= MacOffset(c, vps, off, last)
    ensures MacCount(vps) > 0 && PlainMacs(vps) ==> MacOffset(c, vps, off, last) + 18 <= off + CountAll(c, vps)
    decreases |vps|
  {
    if vps != [] {
      var p := vps[0];
      if IsMac(p) && PlainMac(p) {
        PayloadOfMac(c, p);
      }
      if OnWire(p) {
        MacOffsetInside(c, vps[1..], off + Counted(c, p), if IsMac(p) then off else last);
      } else {
        MacOffsetInside(c, vps[1..], off, last);
      }
    }
  }

  /** There is room behind plain Message-Authenticators, also where other pairs are cut. */
  lemma PlainMacsHaveRoom(c: Context, vps: seq<Pair>)
    requires PlainMacs(vps)
    ensures RoomForMac(c, vps)
  {
    MacOffsetInside(c, vps, HEADER_LEN, 0);
  }

  lemma MacInsideSerialised(c: Context, code: byte, id: byte, vps: seq<Pair>)
    requires Signable(c, vps)
    ensures MacCount(vps) == 0 <==> MacOffset(c, vps, HEADER_LEN, 0) == 0
    ensures MacCount(vps) > 0 ==> MacInside(Serialised(c, code, id, vps), MacOffset(c, vps, HEADER_LEN, 0))
  {
    MacOffsetInside(c, vps, HEADER_LEN, 0);
  }

  /** Pairs that can be numbered have plain Message-Authenticators only. */
  lemma {:induction false} NumberableMacs(c: Context, vps: seq<Pair>)
    requires AllNumberable(c, vps)
    ensures PlainMacs(vps)
  {
    if vps != [] {
      NumberableMacs(c, vps[1..]);
    }
  }

  /** The packet rad_send hands to the network. */
  function Sent(cr: Crypto, c: Context, code: byte, id: byte, original: Option<Digest>, vps: seq<Pair>): (s: seq<byte>)
    requires Signable(c, vps)
    ensures |s| == HEADER_LEN + CountAll(c, vps)
  {
    MacInsideSerialised(c, code, id, vps);
    Sign(cr, code, c.vector, original, c.secret, Serialised(c, code, id, vps), MacOffset(c, vps, HEADER_LEN, 0))
  }

  /** The value the last Message-Authenticator of the packet ends with. */
  function FinalMac(cr: Crypto, c: Context, code: byte, id: byte, original: Option<Digest>, vps: seq<Pair>): (m: Digest)
    requires Signable(c, vps)
  {
    MacInsideSerialised(c, code, id, vps);
    var at := MacOffset(c, vps, HEADER_LEN, 0);
    if at == 0 then c.mac else cr.hmac(c.secret, MacText(code, original, Serialised(c, code, id, vps), at))
  }

  /** The octets of a list whose pairs fit. */
  lemma SerialisedBody(c: Context, code: byte, id: byte, vps: seq<Pair>)
    requires Signable(c, vps) && AllFit(c, vps)
    ensures Serialised(c, code, id, vps)[HEADER_LEN..] == Flat(Attrs(c, vps))
  {
    FramingExactlyWhenAllFit(c, vps);
    EmitAllIsFlat(c, vps);
  }

  lemma SerialisedStart(c: Context, code: byte, id: byte, vps: seq<Pair>)
    requires Signable(c, vps)
    ensures Serialised(c, code, id, vps)[..4] == [code, id] + ToBe16(HEADER_LEN + CountAll(c, vps))
  {
    FramingExactlyWhenAllFit(c, vps);
    HeaderStart(code, id, HEADER_LEN + CountAll(c, vps), FirstVector(code, c.vector),
                EmitAll(c, vps)[..CountAll(c, vps)]);
  }

  /** Signing leaves the first four octets alone ... */
  lemma SentStart(cr: Crypto, c: Context, code: byte, id: byte, original: Option<Digest>, vps: seq<Pair>)
    requires Signable(c, vps)
    ensures var sent := Sent(cr, c, code, id, original, vps);
            sent[..4] == [code, id] + ToBe16(|sent|)
  {
    MacInsideSerialised(c, code, id, vps);
    SerialisedStart(c, code, id, vps);
    var data, at := Serialised(c, code, id, vps), MacOffset(c, vps, HEADER_LEN, 0);
    if at == 0 {
      SignedBodyWithoutMac(cr, code, c.vector, original, c.secret, data);
    } else {
      SignedStart(cr, code, c.vector, original, c.secret, data, at);
    }
  }

  /** ... and in the attributes only fills in the last Message-Authenticator. */
  lemma SentBody(cr: Crypto, c: Context, code: byte, id: byte, original: Option<Digest>, vps: seq<Pair>)
    requires Signable(c, vps) && AllFit(c, vps) && PlainMacs(vps)
    ensures Sent(cr, c, code, id, original, vps)[HEADER_LEN..]
         == Flat(SetLastMac(Attrs(c, vps), FinalMac(cr, c, code, id, original, vps)))
  {
    MacInsideSerialised(c, code, id, vps);
    SerialisedBody(c, code, id, vps);
    MacsOnWire(c, vps);
    if MacCount(vps) == 0 {
      WithoutMac(Attrs(c, vps), FinalMac(cr, c, code, id, original, vps), HEADER_LEN);
      SignedBodyWithoutMac(cr, code, c.vector, original, c.secret, Serialised(c, code, id, vps));
    } else {
      SentBodyWithMac(cr, c, code, id, original, vps);
    }
  }

  lemma SentBodyWithMac(cr: Crypto, c: Context, code: byte, id: byte, original: Option<Digest>, vps: seq<Pair>)
    requires Signable(c, vps) && AllFit(c, vps) && PlainMacs(vps) && MacCount(vps) > 0
    ensures Sent(cr, c, code, id, original, vps)[HEADER_LEN..]
         == Flat(SetLastMac(Attrs(c, vps), FinalMac(cr, c, code, id, original, vps)))
  {
    MacInsideSerialised(c, code, id, vps);
    SerialisedBody(c, code, id, vps);
    MacsOnWire(c, vps);
    LastMacOffset(c, vps);
    FilledBody(cr, code, c.vector, original, c.secret, Serialised(c, code, id, vps), MacOffset(c, vps, HEADER_LEN, 0),
               Attrs(c, vps));
  }

  lemma FilledBody(cr: Crypto, code: int, vector: Digest, original: Option<Digest>, secret: seq<byte>, data: seq<byte>,
                   at: nat, attrs: seq<Attr>)
    requires HEADER_LEN <= |data| && at != 0 && MacInside(data, at)
    requires data[HEADER_LEN..] == Flat(attrs) && MacsFull(attrs) && HasMac(attrs) && at == HEADER_LEN + LastMac(attrs)
    ensures Sign(cr, code, vector, original, secret, data, at)[HEADER_LEN..]
         == Flat(SetLastMac(attrs, cr.hmac(secret, MacText(code, original, data, at))))
  {
    SignedFill(cr, code, vector, original, secret, data, at);
    FlatSetLastMac(attrs, cr.hmac(secret, MacText(code, original, data, at)));
  }

  lemma LastMacOffset(c: Context, vps: seq<Pair>)
    requires AllFit(c, vps) && PlainMacs(vps) && MacCount(vps) > 0
    ensures HasMac(Attrs(c, vps)) && MacOffset(c, vps, HEADER_LEN, 0) == HEADER_LEN + LastMac(Attrs(c, vps))
  {
    MacsOnWire(c, vps);
    MacOffsetIsLast(c, vps, HEADER_LEN, 0);
    LastOffset(Attrs(c, vps), HEADER_LEN);
  }

  lemma HeaderStart(code: byte, id: byte, total: nat, vector: Digest, body: seq<byte>)
    requires total < 0x1_0000
    ensures (PacketHeader(code, id, total, vector) + body)[..4] == [code, id] + ToBe16(total)
  {
  }

  lemma SignedBodyWithoutMac(cr: Crypto, code: int, vector: Digest, original: Option<Digest>, secret: seq<byte>,
                             data: seq<byte>)
    requires HEADER_LEN <= |data|
    ensures var signed := Sign(cr, code, vector, original, secret, data, 0);
            signed[..4] == data[..4] && signed[HEADER_LEN..] == data[HEADER_LEN..]
  {
    BehindVector(data, cr.md5(data + secret));
  }

  lemma SignedStart(cr: Crypto, code: int, vector: Digest, original: Option<Digest>, secret: seq<byte>,
                    data: seq<byte>, at: nat)
    requires HEADER_LEN <= |data| && at != 0 && MacInside(data, at)
    ensures Sign(cr, code, vector, original, secret, data, at)[..4] == data[..4]
  {
    SignForm(cr, code, vector, original, secret, data, at);
    var m := cr.hmac(secret, MacText(code, original, data, at));
    FormStart(data, if Unsigned(code) then vector else cr.md5(Form(data, vector, at, m) + secret), at, m);
  }

  lemma SignedFill(cr: Crypto, code: int, vector: Digest, original: Option<Digest>, secret: seq<byte>,
                   data: seq<byte>, at: nat)
    requires HEADER_LEN <= |data| && at != 0 && MacInside(data, at)
    ensures Sign(cr, code, vector, original, secret, data, at)[HEADER_LEN..]
         == Splice(data[HEADER_LEN..], at - HEADER_LEN + 2, cr.hmac(secret, MacText(code, original, data, at)))
  {
    SignForm(cr, code, vector, original, secret, data, at);
    var m := cr.hmac(secret, MacText(code, original, data, at));
    FormBody(data, if Unsigned(code) then vector else cr.md5(Form(data, vector, at, m) + secret), at, m);
  }

  lemma BehindVector(data: seq<byte>, v: Digest)
    requires HEADER_LEN <= |data|
    ensures WithVector(data, v)[..4] == data[..4] && WithVector(data, v)[HEADER_LEN..] == data[HEADER_LEN..]
  {
  }

  lemma FormStart(data: seq<byte>, v: Digest, at: nat, m: Digest)
    requires HEADER_LEN <= |data| && MacInside(data, at)
    ensures Form(data, v, at, m)[..4] == data[..4]
  {
    BehindVector(data, v);
    SpliceSlices(WithVector(data, v), at + 2, m, 0, 4);
  }

  lemma FormBody(data: seq<byte>, v: Digest, at: nat, m: Digest)
    requires HEADER_LEN <= |data| && MacInside(data, at)
    ensures Form(data, v, at, m)[HEADER_LEN..] == Splice(data[HEADER_LEN..], at - HEADER_LEN + 2, m)
  {
    BehindVector(data, v);
    var d := WithVector(data, v);
    assert d == d[..HEADER_LEN] + d[HEADER_LEN..];
    SpliceBehind(d[..HEADER_LEN], d[HEADER_LEN..], at - HEADER_LEN + 2, m);
  }

  /** Lists whose packet is accepted and extracted whole: the pairs fit their slots and can be numbered,
      with a Message-Authenticator if there is an EAP-Message, within 4096 octets. */
  predicate Deliverable(c: Context, code: byte, vps: seq<Pair>)
  {
    && Signable(c, vps) && AllFit(c, vps) && AllNumberable(c, vps) && 0 < code < 52
    && HEADER_LEN + CountAll(c, vps) <= MAX_PACKET_LEN
    && (HasNumber(vps, EAP_MESSAGE) ==> MacCount(vps) > 0)
  }

  /** The context with another digest function. */
  function With(c: Context, md5: Hash): (r: Context)
  {
    c.(md5 := md5)
  }

  /** The wire round trip, for a list within the receiver's limit on attributes: rad_recv accepts the
      packet rad_send produced, the extraction loop meets no fault, and it returns the pairs that go on
      the wire, in order, with the last Message-Authenticator holding its keyed digest. */
  lemma WireRoundTrip(cr: Crypto, c: Context, code: byte, id: byte, original: Option<Digest>, vps: seq<Pair>,
                      maxAttributes: int)
    requires Deliverable(c, code, vps)
    requires maxAttributes > 0 ==> |Attrs(c, vps)| <= maxAttributes
    ensures var sent := Sent(cr, c, code, id, original, vps);
            && Acceptable(sent, maxAttributes)
            && FromBe16(sent[2..4]) == |sent|
            && Tiled(sent[HEADER_LEN..])
            && NoShortUsr(Items(sent[HEADER_LEN..]))
            && ExpandAll(Items(sent[HEADER_LEN..])) == Arrived(c, FinalMac(cr, c, code, id, original, vps), vps)
  {
    var sent, m := Sent(cr, c, code, id, original, vps), FinalMac(cr, c, code, id, original, vps);
    NumberableMacs(c, vps);
    SentStart(cr, c, code, id, original, vps);
    SentBody(cr, c, code, id, original, vps);
    var attrs := SetLastMac(Attrs(c, vps), m);
    ItemsOfFlat(attrs);
    StampedReadsBack(c, m, vps);
    StampedHas(c, m, vps, EAP_MESSAGE);
    StampedHas(c, m, vps, MESSAGE_AUTHENTICATOR);
    MacNumber(vps);
    assert sent[2..4] == sent[..4][2..] == ToBe16(|sent|);
    assert sent[0] == sent[..4][0] == code;
    assert sent[HEADER_LEN..|sent|] == sent[HEADER_LEN..];
  }

  lemma StampedHas(c: Context, m: Digest, vps: seq<Pair>, number: byte)
    requires AllFit(c, vps) && number != VENDOR_SPECIFIC
    ensures Has(SetLastMac(Attrs(c, vps), m), number) <==> HasNumber(vps, number)
  {
    HasNumberOnWire(c, vps, number);
    SetLastMacTypes(Attrs(c, vps), m);
  }

  lemma {:induction false} SetLastMacTypes(attrs: seq<Attr>, m: Digest)
    ensures forall i :: 0 <= i < |attrs| ==> SetLastMac(attrs, m)[i].typ == attrs[i].typ
  {
    if attrs != [] {
      SetLastMacTypes(attrs[1..], m);
    }
  }
}
