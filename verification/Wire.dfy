/**
 The attribute grammar of sections 5 and 5.26 of RFC 2865: type, length, value triples, and
 Vendor-Specific attributes that hold a vendor identifier and triples of their own.
 */
module Wire {
  import opened Octets

  const HEADER_LEN := 20
  const MAX_PACKET_LEN := 4096

  const VENDOR_SPECIFIC: byte := 26
  const EAP_MESSAGE: byte := 79
  const MESSAGE_AUTHENTICATOR: byte := 80
  const USR := 429

  datatype RawAttr = Attr(typ: byte, body: seq<byte>)

  /** An attribute whose length octet can hold its length. */
  type Attr = a: RawAttr | |a.body| <= 253 witness Attr(1, [])

  function Tlv(a: Attr): (s: seq<byte>)
    ensures |s| == 2 + |a.body|
  {
    [a.typ, 2 + |a.body|] + a.body
  }

  function Flat(attrs: seq<Attr>): (s: seq<byte>)
  {
    if attrs == [] then [] else Tlv(attrs[0]) + Flat(attrs[1..])
  }

  // ---------------------------------------------------------------- tiling

  /** The first triple lies inside `s`. */
  predicate HasHead(s: seq<byte>)
  {
    |s| >= 2 && 2 <= s[1] as int <= |s|
  }

  function Head(s: seq<byte>): (a: Attr)
    requires HasHead(s)
  {
    Attr(s[0], s[2..s[1]])
  }

  function Tail(s: seq<byte>): (t: seq<byte>)
    requires HasHead(s)
    ensures |t| == |s| - s[1]
  {
    s[s[1]..]
  }

  /** `s` is exactly filled by triples. */
  predicate Tiled(s: seq<byte>)
    decreases |s|
  {
    s == [] || (HasHead(s) && Tiled(Tail(s)))
  }

  function Items(s: seq<byte>): (r: seq<Attr>)
    requires Tiled(s)
    decreases |s|
  {
    if s == [] then [] else [Head(s)] + Items(Tail(s))
  }

  lemma HeadOfTlv(a: Attr, s: seq<byte>)
    ensures var t := Tlv(a) + s; HasHead(t) && Head(t) == a && Tail(t) == s
  {
    var t := Tlv(a) + s;
    assert t[2..t[1]] == a.body;
  }

  lemma TlvOfHead(s: seq<byte>)
    requires HasHead(s)
    ensures Tlv(Head(s)) + Tail(s) == s
  {
  }

  /** Every list of triples is read back as it was written ... */
  lemma {:induction false} ItemsOfFlat(attrs: seq<Attr>)
    ensures Tiled(Flat(attrs)) && Items(Flat(attrs)) == attrs
  {
    if attrs != [] {
      HeadOfTlv(attrs[0], Flat(attrs[1..]));
      ItemsOfFlat(attrs[1..]);
    }
  }

  /** ... and every tiled string is the writing of what is read from it. */
  lemma {:induction false} FlatOfItems(s: seq<byte>)
    requires Tiled(s)
    ensures Flat(Items(s)) == s
    decreases |s|
  {
    if s != [] {
      TlvOfHead(s);
      FlatOfItems(Tail(s));
      assert Items(s)[1..] == Items(Tail(s));
    }
  }

  // ---------------------------------------------------------------- sane attributes

  function VendorOf(a: Attr): (v: word)
    requires |a.body| >= 4
  {
    FromBe32(a.body[..4])
  }

  /** What rad_recv demands of one attribute: a defined number, a full Message-Authenticator, and a
      Vendor-Specific value that is a USR value or is tiled by sub-attributes. */
  predicate Sane(a: Attr)
  {
    && a.typ != 0
    && (a.typ == MESSAGE_AUTHENTICATOR ==> |a.body| == 16)
    && (a.typ == VENDOR_SPECIFIC ==>
          |a.body| >= 4 && if VendorOf(a) == USR then |a.body| >= 6 else Tiled(a.body[4..]))
  }

  predicate AllSane(attrs: seq<Attr>)
  {
    attrs == [] || (Sane(attrs[0]) && AllSane(attrs[1..]))
  }

  /** Exactly filled by sane attributes. */
  predicate WellFormed(s: seq<byte>)
    decreases |s|
  {
    s == [] || (HasHead(s) && Sane(Head(s)) && WellFormed(Tail(s)))
  }

  lemma {:induction false} WellFormedMeans(s: seq<byte>)
    ensures WellFormed(s) <==> Tiled(s) && AllSane(Items(s))
    decreases |s|
  {
    if s != [] && HasHead(s) {
      WellFormedMeans(Tail(s));
      if Tiled(s) {
        assert Items(s)[0] == Head(s) && Items(s)[1..] == Items(Tail(s));
      }
    }
  }

  predicate Has(attrs: seq<Attr>, typ: byte)
  {
    exists i :: 0 <= i < |attrs| && attrs[i].typ == typ
  }

  // ---------------------------------------------------------------- where a cursor stands

  /** The octets from `ptr` on are the triple `a` followed by `s`. */
  lemma TripleAt(data: seq<byte>, ptr: nat, a: Attr, s: seq<byte>)
    requires ptr <= |data| && data[ptr..] == Tlv(a) + s
    ensures ptr + 2 + |a.body| <= |data|
    ensures data[ptr] == a.typ && data[ptr + 1] as int == 2 + |a.body|
    ensures data[ptr + 2..ptr + 2 + |a.body|] == a.body
    ensures data[ptr + 2 + |a.body|..] == s
  {
    var t := data[ptr..];
    assert t[0] == data[ptr] && t[1] == data[ptr + 1];
    assert t[2..2 + |a.body|] == data[ptr + 2..ptr + 2 + |a.body|];
    assert t[2 + |a.body|..] == data[ptr + 2 + |a.body|..];
  }

  lemma FlatNonEmpty(attrs: seq<Attr>)
    ensures |Flat(attrs)| == 0 <==> attrs == []
  {
  }

  /** The cursor in front of an attribute. */
  lemma AtAttr(data: seq<byte>, ptr: nat, todo: seq<Attr>)
    requires ptr < |data| && data[ptr..] == Flat(todo)
    ensures todo != []
    ensures ptr + 2 + |todo[0].body| <= |data|
    ensures data[ptr] == todo[0].typ && data[ptr + 1] as int == 2 + |todo[0].body|
    ensures data[ptr + 2..ptr + 2 + |todo[0].body|] == todo[0].body
    ensures data[ptr + 2 + |todo[0].body|..] == Flat(todo[1..])
  {
    FlatNonEmpty(todo);
    TripleAt(data, ptr, todo[0], Flat(todo[1..]));
  }

  // ---------------------------------------------------------------- Message-Authenticators

  /** Where the Message-Authenticators of a list of attributes lie when the list starts at `off`. */
  function Offsets(attrs: seq<Attr>, off: nat): (r: seq<nat>)
  {
    if attrs == [] then []
    else
      var more := Offsets(attrs[1..], off + 2 + |attrs[0].body|);
      if attrs[0].typ == MESSAGE_AUTHENTICATOR then [off] + more else more
  }

  /** Every Message-Authenticator has 16 octets. */
  predicate MacsFull(attrs: seq<Attr>)
  {
    attrs == [] || ((attrs[0].typ == MESSAGE_AUTHENTICATOR ==> |attrs[0].body| == 16) && MacsFull(attrs[1..]))
  }

  lemma {:induction false} SaneMacsFull(attrs: seq<Attr>)
    requires AllSane(attrs)
    ensures MacsFull(attrs)
  {
    if attrs != [] {
      SaneMacsFull(attrs[1..]);
    }
  }

  lemma {:induction false} OffsetsInside(attrs: seq<Attr>, off: nat)
    requires MacsFull(attrs)
    ensures forall i :: 0 <= i < |Offsets(attrs, off)| ==>
              off <= Offsets(attrs, off)[i] && Offsets(attrs, off)[i] + 18 <= off + |Flat(attrs)|
    decreases |attrs|
  {
    if attrs != [] {
      OffsetsInside(attrs[1..], off + 2 + |attrs[0].body|);
    }
  }

  predicate HasMac(attrs: seq<Attr>)
  {
    attrs != [] && (attrs[0].typ == MESSAGE_AUTHENTICATOR || HasMac(attrs[1..]))
  }

  /** The list with `m` as the value of its last Message-Authenticator. */
  function SetLastMac(attrs: seq<Attr>, m: Digest): (r: seq<Attr>)
    ensures |r| == |attrs|
  {
    if attrs == [] then []
    else if attrs[0].typ == MESSAGE_AUTHENTICATOR && !HasMac(attrs[1..])
    then [Attr(MESSAGE_AUTHENTICATOR, m)] + attrs[1..]
    else [attrs[0]] + SetLastMac(attrs[1..], m)
  }

  lemma {:induction false} WithoutMac(attrs: seq<Attr>, m: Digest, off: nat)
    ensures HasMac(attrs) <==> Offsets(attrs, off) != []
    ensures !HasMac(attrs) ==> SetLastMac(attrs, m) == attrs
    decreases |attrs|
  {
    if attrs != [] {
      WithoutMac(attrs[1..], m, off + 2 + |attrs[0].body|);
    }
  }

  /** Filling in a Message-Authenticator moves nothing. */
  lemma {:induction false} OffsetsSetLastMac(attrs: seq<Attr>, m: Digest, off: nat)
    requires MacsFull(attrs)
    ensures Offsets(SetLastMac(attrs, m), off) == Offsets(attrs, off)
    decreases |attrs|
  {
    if attrs != [] {
      var r := SetLastMac(attrs, m);
      OffsetsSetLastMac(attrs[1..], m, off + 2 + |attrs[0].body|);
      if attrs[0].typ == MESSAGE_AUTHENTICATOR && !HasMac(attrs[1..]) {
        assert r[1..] == attrs[1..];
      } else {
        assert r[1..] == SetLastMac(attrs[1..], m);
      }
    }
  }

  /** Where the last Message-Authenticator stands in the octets of the list. */
  function LastMac(attrs: seq<Attr>): (n: nat)
    requires HasMac(attrs)
  {
    if HasMac(attrs[1..]) then 2 + |attrs[0].body| + LastMac(attrs[1..]) else 0
  }

  lemma {:induction false} LastOffset(attrs: seq<Attr>, off: nat)
    requires MacsFull(attrs) && HasMac(attrs)
    ensures Offsets(attrs, off) != [] && Offsets(attrs, off)[|Offsets(attrs, off)| - 1] == off + LastMac(attrs)
    ensures LastMac(attrs) + 18 <= |Flat(attrs)|
    decreases |attrs|
  {
    var off' := off + 2 + |attrs[0].body|;
    WithoutMac(attrs[1..], Zeros(16), off');
    if HasMac(attrs[1..]) {
      LastOffset(attrs[1..], off');
    }
  }

  /** The octets before, of and behind the value of the last Message-Authenticator. */
  datatype Around = Around(before: seq<byte>, value: seq<byte>, behind: seq<byte>)

  function AroundMac(attrs: seq<Attr>): (r: Around)
    requires HasMac(attrs)
  {
    if HasMac(attrs[1..]) then
      var r := AroundMac(attrs[1..]);
      r.(before := Tlv(attrs[0]) + r.before)
    else Around([MESSAGE_AUTHENTICATOR, 18], attrs[0].body, Flat(attrs[1..]))
  }

  lemma {:induction false} AroundMacLengths(attrs: seq<Attr>)
    requires MacsFull(attrs) && HasMac(attrs)
    ensures |AroundMac(attrs).before| == LastMac(attrs) + 2 && |AroundMac(attrs).value| == 16
  {
    if HasMac(attrs[1..]) {
      AroundMacLengths(attrs[1..]);
    }
  }

  lemma {:induction false} FlatAroundMac(attrs: seq<Attr>)
    requires MacsFull(attrs) && HasMac(attrs)
    ensures Flat(attrs) == AroundMac(attrs).before + AroundMac(attrs).value + AroundMac(attrs).behind
  {
    if HasMac(attrs[1..]) {
      FlatAroundMac(attrs[1..]);
      var r := AroundMac(attrs[1..]);
      Regroup3(Tlv(attrs[0]), r.before, r.value, r.behind);
    }
  }

  lemma {:induction false} FlatAroundNewMac(attrs: seq<Attr>, m: Digest)
    requires MacsFull(attrs) && HasMac(attrs)
    ensures Flat(SetLastMac(attrs, m)) == AroundMac(attrs).before + m + AroundMac(attrs).behind
  {
    var s := SetLastMac(attrs, m);
    if HasMac(attrs[1..]) {
      FlatAroundNewMac(attrs[1..], m);
      var r := AroundMac(attrs[1..]);
      assert s[1..] == SetLastMac(attrs[1..], m);
      Regroup3(Tlv(attrs[0]), r.before, m, r.behind);
    } else {
      assert s[1..] == attrs[1..];
    }
  }

  lemma Regroup3(a: seq<byte>, b: seq<byte>, c: seq<byte>, d: seq<byte>)
    ensures a + (b + c + d) == a + b + c + d
  {
  }

  /** Setting the last Message-Authenticator changes the 16 octets of its value. */
  lemma FlatSetLastMac(attrs: seq<Attr>, m: Digest)
    requires MacsFull(attrs) && HasMac(attrs)
    ensures LastMac(attrs) + 18 <= |Flat(attrs)|
    ensures Flat(SetLastMac(attrs, m)) == Splice(Flat(attrs), LastMac(attrs) + 2, m)
  {
    AroundMacLengths(attrs);
    FlatAroundMac(attrs);
    FlatAroundNewMac(attrs, m);
    var r := AroundMac(attrs);
    SpliceValue(r.before, r.value, r.behind, m);
  }

  /** The first Message-Authenticator. */
  function FirstMac(attrs: seq<Attr>): (a: Attr)
    requires HasMac(attrs)
  {
    if attrs[0].typ == MESSAGE_AUTHENTICATOR then attrs[0] else FirstMac(attrs[1..])
  }

  lemma {:induction false} FirstMacAt(data: seq<byte>, ptr: nat, todo: seq<Attr>)
    requires ptr <= |data| && data[ptr..] == Flat(todo) && MacsFull(todo) && HasMac(todo)
    ensures Offsets(todo, ptr) != []
    ensures var at := Offsets(todo, ptr)[0]; at + 18 <= |data| && data[at + 2..at + 18] == FirstMac(todo).body
    decreases |todo|
  {
    AtAttr(data, ptr, todo);
    if todo[0].typ != MESSAGE_AUTHENTICATOR {
      FirstMacAt(data, ptr + 2 + |todo[0].body|, todo[1..]);
    }
  }

  /** Filling in the last of several Message-Authenticators leaves the first one alone. */
  lemma {:induction false} FirstMacStays(attrs: seq<Attr>, m: Digest, off: nat)
    requires |Offsets(attrs, off)| > 1
    ensures HasMac(attrs) && HasMac(SetLastMac(attrs, m)) && FirstMac(SetLastMac(attrs, m)) == FirstMac(attrs)
    decreases |attrs|
  {
    var next := off + 2 + |attrs[0].body|;
    if attrs[0].typ == MESSAGE_AUTHENTICATOR {
      if !HasMac(attrs[1..]) {
        WithoutMac(attrs[1..], m, next);
      }
    } else {
      FirstMacStays(attrs[1..], m, next);
      assert SetLastMac(attrs, m)[1..] == SetLastMac(attrs[1..], m);
    }
  }
}
