/**
 Validation of a received datagram (rad_recv of radius.c).

 The walk over the attributes reads the length octet of an attribute before it knows that the
 attribute lies inside the packet, so it may read past the Length field and past the datagram.
 Whatever lies there is a parameter, `beyond`; the verdict is proved not to depend on it.
 */
module Receive {
  import opened Octets
  import opened Wire
  import opened Packet

  type Memory = nat -> byte

  function At(data: seq<byte>, beyond: Memory, i: nat): (b: byte)
  {
    if i < |data| then data[i] else beyond(i)
  }

  // ---------------------------------------------------------------- EAP-Message and Message-Authenticator

  function SeenBit(typ: byte): (b: bv8)
  {
    if typ == EAP_MESSAGE then 79 else if typ == MESSAGE_AUTHENTICATOR then 80 else 0
  }

  /** The value `seen_eap` reaches over a run of attributes. */
  function Seen(attrs: seq<Attr>): (b: bv8)
  {
    if attrs == [] then 0 else SeenBit(attrs[0].typ) | Seen(attrs[1..])
  }

  /** The test on `seen_eap` at the end of rad_recv. */
  predicate EapPasses(seen: bv8)
  {
    !(seen != 0 && seen != 80 && seen != (79 | 80))
  }

  lemma {:induction false} SeenMeans(attrs: seq<Attr>)
    ensures Seen(attrs) == (if Has(attrs, EAP_MESSAGE) then 79 else 0)
                         | (if Has(attrs, MESSAGE_AUTHENTICATOR) then 80 else 0)
  {
    if attrs != [] {
      SeenMeans(attrs[1..]);
      HasSplit(attrs, EAP_MESSAGE);
      HasSplit(attrs, MESSAGE_AUTHENTICATOR);
    }
  }

  lemma HasSplit(attrs: seq<Attr>, typ: byte)
    requires attrs != []
    ensures Has(attrs, typ) <==> attrs[0].typ == typ || Has(attrs[1..], typ)
  {
    if Has(attrs[1..], typ) {
      var i :| 0 <= i < |attrs[1..]| && attrs[1..][i].typ == typ;
      assert attrs[i + 1].typ == typ;
    }
    if Has(attrs, typ) && attrs[0].typ != typ {
      var i :| 0 <= i < |attrs| && attrs[i].typ == typ;
      assert attrs[1..][i - 1].typ == typ;
    }
  }

  /** Or-ing 79 and 80 tells the three good cases from the bad one: the test passes exactly when an
      EAP-Message comes with a Message-Authenticator. */
  lemma EapPassesMeans(attrs: seq<Attr>)
    ensures EapPasses(Seen(attrs)) <==> (Has(attrs, EAP_MESSAGE) ==> Has(attrs, MESSAGE_AUTHENTICATOR))
  {
    SeenMeans(attrs);
  }

  // ---------------------------------------------------------------- the verdict

  /** A datagram is acceptable when its header is sane, sane attributes exactly fill the length it
      declares, there are not too many of them, and an EAP-Message is authenticated. */
  predicate Acceptable(datagram: seq<byte>, maxAttributes: int)
  {
    && HEADER_LEN <= |datagram| <= MAX_PACKET_LEN
    && 0 < datagram[0] < 52
    && var total := FromBe16(datagram[2..4]);
    && HEADER_LEN <= total <= |datagram|
    && var body := datagram[HEADER_LEN..total];
    && Tiled(body)
    && AllSane(Items(body))
    && (maxAttributes > 0 ==> |Items(body)| <= maxAttributes)
    && (Has(Items(body), EAP_MESSAGE) ==> Has(Items(body), MESSAGE_AUTHENTICATOR))
  }

  /** Octets outside the range of the Length field never change the verdict. */
  lemma PaddingIsIgnored(a: seq<byte>, b: seq<byte>, maxAttributes: int)
    requires HEADER_LEN <= |a| <= MAX_PACKET_LEN && HEADER_LEN <= |b| <= MAX_PACKET_LEN
    requires FromBe16(a[2..4]) <= |a| && FromBe16(a[2..4]) <= |b|
    requires a[..4] == b[..4] && a[..FromBe16(a[2..4])] == b[..FromBe16(a[2..4])]
    ensures Acceptable(a, maxAttributes) <==> Acceptable(b, maxAttributes)
  {
    var total := FromBe16(a[2..4]);
    assert a[2..4] == a[..4][2..] == b[..4][2..] == b[2..4];
    assert a[0] == a[..4][0] == b[..4][0] == b[0];
    if HEADER_LEN <= total {
      assert a[HEADER_LEN..total] == a[..total][HEADER_LEN..] == b[HEADER_LEN..total];
    }
  }

  /** What the second octet of a value decides about its first sub-attribute. */
  lemma TiledBy(s: seq<byte>, step: nat)
    requires |s| >= 2 && s[1] as int == step
    ensures step < 2 || step > |s| ==> !Tiled(s)
    ensures 2 <= step <= |s| ==> (Tiled(s) <==> Tiled(s[step..]))
  {
    if 2 <= step <= |s| {
      assert Tail(s) == s[step..];
    }
  }

  lemma TiledFrom(data: seq<byte>, at: nat, end: nat, step: nat)
    requires at + 2 <= end <= |data| && data[at + 1] as int == step
    ensures step < 2 || at + step > end ==> !Tiled(data[at..end])
    ensures 2 <= step && at + step <= end ==> (Tiled(data[at..end]) <==> Tiled(data[at + step..end]))
  {
    var s := data[at..end];
    assert s[1] == data[at + 1];
    TiledBy(s, step);
    if 2 <= step && at + step <= end {
      assert s[step..] == data[at + step..end];
    }
  }

  /** The inner loop of rad_recv.  When the Vendor-Specific attribute sticks out of the packet its
      answer means nothing, and the outer loop rejects the packet anyway. */
  method VendorFilled(data: seq<byte>, beyond: Memory, at: nat, len: nat) returns (ok: bool)
    ensures at + len <= |data| ==> (ok <==> Tiled(data[at..at + len]))
  {
    var vendorattr, vendorlen: int := at, len;
    ghost var inside := at + len <= |data|;
    ghost var tiled := inside && Tiled(data[at..at + len]);
    while vendorlen >= 2
      invariant at <= vendorattr && vendorattr + vendorlen == at + len
      invariant inside ==> (tiled <==> vendorlen >= 0 && Tiled(data[vendorattr..at + len]))
      decreases vendorlen
    {
      var step: int := At(data, beyond, vendorattr + 1);
      if inside {
        TiledFrom(data, vendorattr, at + len, step);
      }
      if step < 2 {
        return false;
      }
      vendorlen := vendorlen - step;
      vendorattr := vendorattr + step;
    }
    ok := vendorlen == 0;
  }

  /** The checks on one attribute starting at `attr`, whose length octet is at least 2. */
  method CheckAttribute(data: seq<byte>, beyond: Memory, attr: nat) returns (ok: bool)
    requires At(data, beyond, attr + 1) >= 2
    ensures attr + At(data, beyond, attr + 1) as int <= |data| ==> (ok <==> Sane(Head(data[attr..])))
  {
    var typ, len: int := At(data, beyond, attr), At(data, beyond, attr + 1);
    ghost var inside := attr + len <= |data|;
    ghost var a := if inside then Head(data[attr..]) else Attr(1, []);
    assert inside ==> a.body == data[attr + 2..attr + len];
    if typ == 0 {
      return false;
    }
    if typ == MESSAGE_AUTHENTICATOR {
      return len == 2 + 16;
    }
    if typ == VENDOR_SPECIFIC {
      if len < 6 {
        return false;
      }
      var vendor := FromBe32([At(data, beyond, attr + 2), At(data, beyond, attr + 3),
                              At(data, beyond, attr + 4), At(data, beyond, attr + 5)]);
      assert inside ==> a.body[..4] == [data[attr + 2], data[attr + 3], data[attr + 4], data[attr + 5]];
      if vendor == USR {
        return len >= 8;
      }
      assert inside ==> a.body[4..] == data[attr + 6..attr + len];
      ok := VendorFilled(data, beyond, attr + 6, len - 6);
      return;
    }
    ok := true;
  }

  datatype Walk = Walk(count: nat, seen: bv8)

  /** What a walk over `rest` comes to, behind `num` attributes that left `seen`. */
  ghost function Walked(rest: seq<byte>, num: nat, seen: bv8): (r: Option<Walk>)
    decreases |rest|
  {
    if rest == [] then Some(Walk(num, seen))
    else if !HasHead(rest) || !Sane(Head(rest)) then None
    else Walked(Tail(rest), num + 1, seen | SeenBit(rest[0]))
  }

  lemma OrAssoc(a: bv8, b: bv8, c: bv8)
    ensures (a | b) | c == a | (b | c) && a | 0 == a
  {
  }

  lemma {:induction false} WalkedMeans(rest: seq<byte>, num: nat, seen: bv8)
    ensures Walked(rest, num, seen).Some? <==> WellFormed(rest)
    ensures WellFormed(rest) ==>
              Tiled(rest) && Walked(rest, num, seen).value == Walk(num + |Items(rest)|, seen | Seen(Items(rest)))
    decreases |rest|
  {
    if rest == [] {
      OrAssoc(seen, 0, 0);
    } else if HasHead(rest) && Sane(Head(rest)) {
      WalkedMeans(Tail(rest), num + 1, seen | SeenBit(rest[0]));
      if WellFormed(rest) {
        assert Items(rest)[0] == Head(rest) && Items(rest)[1..] == Items(Tail(rest));
        OrAssoc(seen, SeenBit(rest[0]), Seen(Items(Tail(rest))));
      }
    }
  }

  /** The outer loop of rad_recv over the attributes of the packet `data`: how many there are and
      which of EAP-Message and Message-Authenticator occur, if they are well formed. */
  method WalkAttributes(data: seq<byte>, beyond: Memory) returns (r: Option<Walk>)
    requires HEADER_LEN <= |data|
    ensures r.Some? <==> WellFormed(data[HEADER_LEN..])
    ensures r.Some? && Tiled(data[HEADER_LEN..]) ==>
              r.value == Walk(|Items(data[HEADER_LEN..])|, Seen(Items(data[HEADER_LEN..])))
  {
    ghost var body := data[HEADER_LEN..];
    WalkedMeans(body, 0, 0);
    ZeroOr(Seen(if Tiled(body) then Items(body) else []));
    r := WalkAll(data, beyond);
  }

  lemma ZeroOr(a: bv8)
    ensures 0 | a == a
  {
  }

  method WalkAll(data: seq<byte>, beyond: Memory) returns (r: Option<Walk>)
    requires HEADER_LEN <= |data|
    ensures r == Walked(data[HEADER_LEN..], 0, 0)
  {
    ghost var end := Walked(data[HEADER_LEN..], 0, 0);
    var attr, count: int, seen: bv8, num := HEADER_LEN, |data| - HEADER_LEN, 0, 0;
    while count > 0
      invariant HEADER_LEN <= attr && attr + count == |data| && 0 <= num
      invariant end == if count >= 0 then Walked(data[attr..], num, seen) else None
      decreases count
    {
      ghost var rest := data[attr..];
      var typ, len: int := At(data, beyond, attr), At(data, beyond, attr + 1);
      if len < 2 {
        return None;
      }
      var ok := CheckAttribute(data, beyond, attr);
      if !ok {
        return None;
      }
      assert len <= count ==> HasHead(rest) && Tail(rest) == data[attr + len..];
      seen := seen | SeenBit(typ);
      count := count - len;
      attr := attr + len;
      num := num + 1;
    }
    if count != 0 {
      return None;
    }
    assert data[attr..] == [];
    return Some(Walk(num, seen));
  }

  /** rad_recv on a datagram: the packet is accepted exactly when it is acceptable, whatever memory
      holds beyond the datagram, and an accepted packet keeps exactly the declared length. */
  method Receive(datagram: seq<byte>, beyond: Memory, maxAttributes: int) returns (packet: RadiusPacket?)
    ensures packet != null <==> Acceptable(datagram, maxAttributes)
    ensures packet != null ==>
              && fresh(packet) && fresh(packet.data)
              && packet.data[..] == datagram[..FromBe16(datagram[2..4])]
              && packet.code == datagram[0] && packet.id == datagram[1]
              && packet.vector == datagram[4..20]
              && packet.verified == 0
  {
    if |datagram| < HEADER_LEN || |datagram| > MAX_PACKET_LEN {
      return null;
    }
    var total := FromBe16(datagram[2..4]);
    if datagram[0] == 0 || datagram[0] >= 52 || total < HEADER_LEN || total > MAX_PACKET_LEN || |datagram| < total {
      return null;
    }
    var data := datagram[..total];
    var padding := i => if i < |datagram| then 0 else beyond(i);
    var walk := WalkAttributes(data, padding);
    ghost var body := datagram[HEADER_LEN..total];
    assert data[HEADER_LEN..] == body;
    WellFormedMeans(body);
    if walk.None? {
      return null;
    }
    if maxAttributes > 0 && walk.value.count > maxAttributes {
      return null;
    }
    EapPassesMeans(Items(body));
    if !EapPasses(walk.value.seen) {
      return null;
    }
    assert data[4..20] == datagram[4..20];
    packet := new RadiusPacket(data[0], data[1], data[4..20], data);
  }
}
