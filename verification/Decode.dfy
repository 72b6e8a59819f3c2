/**
 Extraction of attributes from a validated packet (the second half of rad_decode of radius.c).

 One flat loop, driven by the two counters `length` and `vendorlen`, walks attributes and the
 sub-attributes of Vendor-Specific attributes alike.  It is proved to read off exactly what the
 nested grammar says.
 */
module Decode {
  import opened Octets
  import opened Wire

  /** One extracted attribute: vendor in the upper half of the number, payload octets. */
  datatype WireAttr = WireAttr(attribute: word, payload: seq<byte>)

  /** `number | (vendor << 16)` in 32 bits: only the low half of the vendor identifier survives. */
  function Numbered(vendor: word, number: nat): (a: word)
    requires number < 0x1_0000
  {
    vendor % 0x1_0000 * 0x1_0000 + number
  }

  // ---------------------------------------------------------------- what the grammar says

  /** The sub-attributes of one vendor. */
  function VendorItems(vendor: word, subs: seq<Attr>): (r: seq<WireAttr>)
  {
    if subs == [] then []
    else [WireAttr(Numbered(vendor, subs[0].typ), subs[0].body)] + VendorItems(vendor, subs[1..])
  }

  /** A Vendor-Specific attribute is opened only when its value is longer than 6 octets and its
      vendor identifier is not zero. */
  predicate Opened(a: Attr)
  {
    a.typ == VENDOR_SPECIFIC && |a.body| > 6 && VendorOf(a) != 0
  }

  /** A USR value one octet too short for its 4-octet attribute number. */
  predicate UsrTooShort(a: Attr)
  {
    Opened(a) && VendorOf(a) == USR && |a.body| < 8
  }

  /** The attributes one sane triple stands for. */
  function Expand(a: Attr): (r: seq<WireAttr>)
  {
    if !Opened(a) then [WireAttr(a.typ, a.body)]
    else if VendorOf(a) != USR then
      if Tiled(a.body[4..]) then VendorItems(VendorOf(a), Items(a.body[4..])) else []
    else if |a.body| < 8 then []
    else [WireAttr(Numbered(USR, FromBe32(a.body[4..8]) % 0x1_0000), a.body[8..])]
  }

  function ExpandAll(attrs: seq<Attr>): (r: seq<WireAttr>)
  {
    if attrs == [] then [] else Expand(attrs[0]) + ExpandAll(attrs[1..])
  }

  predicate NoShortUsr(attrs: seq<Attr>)
  {
    attrs == [] || (!UsrTooShort(attrs[0]) && NoShortUsr(attrs[1..]))
  }

  // ---------------------------------------------------------------- the loop invariant

  /** What the loop will end with: the attributes, and whether it meets no short USR value. */
  datatype Outcome = Outcome(attributes: seq<WireAttr>, clean: bool)

  /** The outcome seen from a point where `subs` are the sub-attributes of `vendor` still to come,
      `todo` the attributes behind them and `out` what has been read. */
  ghost function Foreseen(vendor: word, subs: seq<Attr>, todo: seq<Attr>, out: seq<WireAttr>): (o: Outcome)
  {
    Outcome(out + VendorItems(vendor, subs) + ExpandAll(todo), NoShortUsr(todo))
  }

  /** Reading a sub-attribute does not change the outcome. */
  lemma ForeseenSub(vendor: word, subs: seq<Attr>, todo: seq<Attr>, out: seq<WireAttr>)
    requires subs != []
    ensures Foreseen(vendor, subs, todo, out)
         == Foreseen(vendor, subs[1..], todo, out + [WireAttr(Numbered(vendor, subs[0].typ), subs[0].body)])
  {
    Regroup(out, [WireAttr(Numbered(vendor, subs[0].typ), subs[0].body)], VendorItems(vendor, subs[1..]),
            ExpandAll(todo));
  }

  /** Neither does reading a whole attribute ... */
  lemma ForeseenNext(vendor: word, vendor': word, todo: seq<Attr>, out: seq<WireAttr>)
    requires todo != []
    ensures UsrTooShort(todo[0]) ==> !Foreseen(vendor, [], todo, out).clean
    ensures !UsrTooShort(todo[0]) ==>
              Foreseen(vendor, [], todo, out) == Foreseen(vendor', [], todo[1..], out + Expand(todo[0]))
  {
    var x, e := Expand(todo[0]), ExpandAll(todo[1..]);
    Regroup(out, [], x, e);
    Regroup(out, x, [], e);
  }

  /** ... or opening a Vendor-Specific one. */
  lemma ForeseenOpen(vendor: word, todo: seq<Attr>, out: seq<WireAttr>)
    requires todo != [] && Opened(todo[0]) && VendorOf(todo[0]) != USR && Tiled(todo[0].body[4..])
    ensures Foreseen(vendor, [], todo, out) == Foreseen(VendorOf(todo[0]), Items(todo[0].body[4..]), todo[1..], out)
  {
    Regroup(out, [], Expand(todo[0]), ExpandAll(todo[1..]));
  }

  // ---------------------------------------------------------------- where the cursor stands

  /** The cursor in front of a sub-attribute. */
  lemma AtSub(data: seq<byte>, ptr: nat, subs: seq<Attr>, todo: seq<Attr>)
    requires ptr <= |data| && data[ptr..] == Flat(subs) + Flat(todo) && |Flat(subs)| > 0
    ensures subs != []
    ensures ptr + 2 + |subs[0].body| <= |data|
    ensures data[ptr] == subs[0].typ && data[ptr + 1] as int == 2 + |subs[0].body|
    ensures data[ptr + 2..ptr + 2 + |subs[0].body|] == subs[0].body
    ensures data[ptr + 2 + |subs[0].body|..] == Flat(subs[1..]) + Flat(todo)
    ensures |Flat(subs[1..])| == |Flat(subs)| - 2 - |subs[0].body|
  {
    var t, f, e := Tlv(subs[0]), Flat(subs[1..]), Flat(todo);
    assert Flat(subs) == t + f;
    Assoc(t, f, e);
    TripleAt(data, ptr, subs[0], f + e);
  }

  /** The first four octets of an attribute's value are the vendor identifier. */
  lemma VendorAt(data: seq<byte>, at: nat, a: Attr)
    requires at + |a.body| <= |data| && data[at..at + |a.body|] == a.body && |a.body| >= 4
    ensures FromBe32(data[at..at + 4]) == VendorOf(a)
  {
    assert data[at..at + 4] == a.body[..4];
  }

  /** Behind the opening of a Vendor-Specific attribute stand its sub-attributes. */
  lemma InsideAt(data: seq<byte>, at: nat, a: Attr, todo: seq<Attr>)
    requires at + |a.body| <= |data| && data[at..at + |a.body|] == a.body && |a.body| >= 4
    requires data[at + |a.body|..] == Flat(todo) && Tiled(a.body[4..])
    ensures data[at + 4..] == Flat(Items(a.body[4..])) + Flat(todo)
    ensures |Flat(Items(a.body[4..]))| == |a.body| - 4
  {
    FlatOfItems(a.body[4..]);
    assert data[at + 4..at + |a.body|] == a.body[4..];
    assert data[at + 4..] == data[at + 4..at + |a.body|] + data[at + |a.body|..];
  }

  // ---------------------------------------------------------------- the flat loop

  /** What the first half of the loop body has read: the attribute number, where its value starts
      and how long it is, and the vendor counters before the value is consumed. */
  datatype Item = Item(attribute: word, start: nat, attrlen: int, vendorcode: word, vendorlen: int)

  /** Consuming the value leaves the cursor in front of `subs` and `todo`, on the way to `end`. */
  ghost predicate Consumed(end: Outcome, data: seq<byte>, i: Item, out: seq<WireAttr>, subs: seq<Attr>, todo: seq<Attr>)
  {
    && 0 <= i.attrlen && 0 <= i.vendorlen && i.start + i.attrlen <= |data|
    && data[i.start + i.attrlen..] == Flat(subs) + Flat(todo)
    && (if i.vendorlen > 0 then i.vendorlen - (i.attrlen + 2) else 0) == |Flat(subs)|
    && end == Foreseen(i.vendorcode, subs, todo, out + [WireAttr(i.attribute, data[i.start..i.start + i.attrlen])])
  }

  /** Reading a sub-attribute of `vendorcode` at `ptr`. */
  method ReadSub(data: seq<byte>, ptr: nat, vendorcode: word, vendorlen: nat, ghost end: Outcome,
                 ghost subs: seq<Attr>, ghost todo: seq<Attr>, ghost out: seq<WireAttr>)
    returns (i: Item)
    requires ptr < |data| && data[ptr..] == Flat(subs) + Flat(todo)
    requires 0 < vendorlen == |Flat(subs)| && end == Foreseen(vendorcode, subs, todo, out)
    ensures subs != [] && Consumed(end, data, i, out, subs[1..], todo) && ptr < i.start
  {
    AtSub(data, ptr, subs, todo);
    ForeseenSub(vendorcode, subs, todo, out);
    i := Item(Numbered(vendorcode, data[ptr]), ptr + 2, data[ptr + 1] as int - 2, vendorcode, vendorlen);
  }

  /** The cursor stands in front of the attribute `a` with `todo` behind it. */
  ghost predicate Facing(data: seq<byte>, ptr: nat, a: Attr, todo: seq<Attr>)
  {
    && ptr + 2 + |a.body| <= |data|
    && data[ptr] == a.typ && data[ptr + 1] as int == 2 + |a.body|
    && data[ptr + 2..ptr + 2 + |a.body|] == a.body
    && data[ptr + 2 + |a.body|..] == Flat(todo)
  }

  lemma FacingEnd(data: seq<byte>, ptr: nat, a: Attr, todo: seq<Attr>, end: nat)
    requires Facing(data, ptr, a, todo) && end == ptr + 2 + |a.body|
    ensures end <= |data| && data[end..] == Flat(todo)
  {
  }

  lemma NothingInside(end: Outcome, data: seq<byte>, attribute: word, start: nat, n: nat, vendor: word,
                      out: seq<WireAttr>, todo: seq<Attr>)
    requires start + n <= |data| && data[start + n..] == Flat(todo)
    requires end == Foreseen(vendor, [], todo, out + [WireAttr(attribute, data[start..start + n])])
    ensures Consumed(end, data, Item(attribute, start, n, vendor, 0), out, [], todo)
  {
    FlatOfNothing(Flat(todo));
  }

  lemma FlatOfNothing(s: seq<byte>)
    ensures Flat([]) + s == s && |Flat([])| == 0
  {
  }

  /** An attribute that is not opened is consumed whole. */
  lemma WholeConsumed(data: seq<byte>, ptr: nat, vendor: word, vendor': word, todo: seq<Attr>, out: seq<WireAttr>)
    requires todo != [] && Facing(data, ptr, todo[0], todo[1..]) && !Opened(todo[0])
    ensures Consumed(Foreseen(vendor, [], todo, out), data,
                     Item(todo[0].typ, ptr + 2, |todo[0].body|, vendor', 0), out, [], todo[1..])
  {
    ForeseenNext(vendor, vendor', todo, out);
    assert Expand(todo[0]) == [WireAttr(todo[0].typ, data[ptr + 2..ptr + 2 + |todo[0].body|])];
    NothingInside(Foreseen(vendor, [], todo, out), data, todo[0].typ, ptr + 2, |todo[0].body|, vendor', out, todo[1..]);
  }

  /** A USR attribute with `n` octets behind its 4-octet number. */
  function UsrItem(data: seq<byte>, ptr: nat, n: nat): (i: Item)
    requires ptr + 10 <= |data|
  {
    Item(Numbered(USR, FromBe32(data[ptr + 6..ptr + 10]) % 0x1_0000), ptr + 10, n, USR, 0)
  }

  lemma UsrAt(data: seq<byte>, ptr: nat, a: Attr, n: nat)
    requires ptr + 10 + n <= |data| && |a.body| == 8 + n && data[ptr + 2..ptr + 10 + n] == a.body
    requires Opened(a) && VendorOf(a) == USR
    ensures Expand(a) == [WireAttr(UsrItem(data, ptr, n).attribute, data[ptr + 10..ptr + 10 + n])]
  {
    forall i | 0 <= i < 8 + n ensures data[ptr + 2 + i] == a.body[i] {
      assert data[ptr + 2 + i] == data[ptr + 2..ptr + 10 + n][i];
    }
    assert data[ptr + 6..ptr + 10] == a.body[4..8];
    assert data[ptr + 10..ptr + 10 + n] == a.body[8..];
  }

  /** It is consumed behind that number. */
  lemma UsrConsumed(data: seq<byte>, ptr: nat, n: nat, vendor: word, todo: seq<Attr>, out: seq<WireAttr>)
    requires todo != [] && Facing(data, ptr, todo[0], todo[1..])
    requires Opened(todo[0]) && VendorOf(todo[0]) == USR && |todo[0].body| == 8 + n
    ensures Consumed(Foreseen(vendor, [], todo, out), data, UsrItem(data, ptr, n), out, [], todo[1..])
  {
    UsrForeseen(data, ptr, n, vendor, todo, out);
    FacingEnd(data, ptr, todo[0], todo[1..], ptr + 10 + n);
    NothingInside(Foreseen(vendor, [], todo, out), data, UsrItem(data, ptr, n).attribute, ptr + 10, n, USR, out,
                  todo[1..]);
  }

  lemma UsrForeseen(data: seq<byte>, ptr: nat, n: nat, vendor: word, todo: seq<Attr>, out: seq<WireAttr>)
    requires todo != [] && Facing(data, ptr, todo[0], todo[1..])
    requires Opened(todo[0]) && VendorOf(todo[0]) == USR && |todo[0].body| == 8 + n
    ensures Foreseen(vendor, [], todo, out)
         == Foreseen(USR, [], todo[1..],
                     out + [WireAttr(UsrItem(data, ptr, n).attribute, data[ptr + 10..ptr + 10 + n])])
  {
    ForeseenNext(vendor, USR, todo, out);
    UsrAt(data, ptr, todo[0], n);
  }

  /** Reading the opening of a Vendor-Specific attribute together with its first sub-attribute. */
  method ReadOpening(data: seq<byte>, ptr: nat, ghost vendorcode: word, vendor: word, attrlen: nat,
                     ghost end: Outcome, ghost todo: seq<Attr>, ghost out: seq<WireAttr>)
    returns (i: Item, ghost subs: seq<Attr>)
    requires todo != [] && Sane(todo[0]) && Facing(data, ptr, todo[0], todo[1..])
    requires Opened(todo[0]) && VendorOf(todo[0]) == vendor != USR && attrlen == |todo[0].body|
    requires end == Foreseen(vendorcode, [], todo, out)
    ensures ptr < i.start && Consumed(end, data, i, out, subs, todo[1..])
  {
    ForeseenOpen(vendorcode, todo, out);
    InsideAt(data, ptr + 2, todo[0], todo[1..]);
    ghost var inner := Items(todo[0].body[4..]);
    i := ReadSub(data, ptr + 6, vendor, attrlen - 4, end, inner, todo[1..], out);
    subs := inner[1..];
  }

  /** Reading an attribute at a boundary, opening it if it is Vendor-Specific and long enough. */
  method ReadTop(data: seq<byte>, ptr: nat, vendorcode: word, ghost end: Outcome, ghost todo: seq<Attr>,
                 ghost out: seq<WireAttr>)
    returns (i: Item, ghost subs: seq<Attr>)
    requires todo != [] && Sane(todo[0]) && Facing(data, ptr, todo[0], todo[1..])
    requires end == Foreseen(vendorcode, [], todo, out)
    ensures ptr < i.start
    ensures if i.attrlen < 0 then !end.clean else Consumed(end, data, i, out, subs, todo[1..])
  {
    ghost var a := todo[0];
    var attribute, attrlen := data[ptr], data[ptr + 1] as int - 2;
    subs := [];
    if attribute != VENDOR_SPECIFIC || attrlen <= 6 {
      WholeConsumed(data, ptr, vendorcode, vendorcode, todo, out);
      return Item(attribute, ptr + 2, attrlen, vendorcode, 0), subs;
    }
    VendorAt(data, ptr + 2, a);
    var vendor := FromBe32(data[ptr + 2..ptr + 6]);
    if vendor == 0 {
      WholeConsumed(data, ptr, vendorcode, vendor, todo, out);
      i := Item(attribute, ptr + 2, attrlen, vendor, 0);
    } else if vendor == USR {
      if attrlen < 8 {
        ForeseenNext(vendorcode, vendor, todo, out);
        return Item(attribute, ptr + 10, attrlen - 8, vendor, 0), subs;
      }
      UsrConsumed(data, ptr, attrlen - 8, vendorcode, todo, out);
      i := Item(Numbered(vendor, FromBe32(data[ptr + 6..ptr + 10]) % 0x1_0000), ptr + 10, attrlen - 8, vendor, 0);
    } else {
      i, subs := ReadOpening(data, ptr, vendorcode, vendor, attrlen, end, todo, out);
    }
  }

  /** The first half of the loop body. */
  method ReadItem(data: seq<byte>, ptr: nat, vendorcode: word, vendorlen: nat, ghost end: Outcome,
                  ghost subs: seq<Attr>, ghost todo: seq<Attr>, ghost out: seq<WireAttr>)
    returns (i: Item, ghost subs': seq<Attr>, ghost todo': seq<Attr>)
    requires ptr < |data| && data[ptr..] == Flat(subs) + Flat(todo) && vendorlen == |Flat(subs)|
    requires end == Foreseen(vendorcode, subs, todo, out) && AllSane(todo)
    ensures ptr < i.start && AllSane(todo')
    ensures if i.attrlen < 0 then !end.clean else Consumed(end, data, i, out, subs', todo')
  {
    if vendorlen > 0 {
      i := ReadSub(data, ptr, vendorcode, vendorlen, end, subs, todo, out);
      subs', todo' := subs[1..], todo;
    } else {
      FlatNonEmpty(subs);
      Regroup(Flat(todo), [], Flat(todo), []);
      AtAttr(data, ptr, todo);
      i, subs' := ReadTop(data, ptr, vendorcode, end, todo, out);
      todo' := todo[1..];
    }
  }

  /** The extraction loop.  A negative `attrlen`, which the C code hands to memcpy, is reported as
      None; that happens exactly for a USR value one octet too short.  In every other packet that
      rad_recv accepts, the loop reads only octets of the packet, consumes it exactly, and returns
      the attributes of the nested grammar in order. */
  method Extract(data: seq<byte>) returns (r: Option<seq<WireAttr>>)
    requires HEADER_LEN <= |data| && Tiled(data[HEADER_LEN..]) && AllSane(Items(data[HEADER_LEN..]))
    ensures r.Some? <==> NoShortUsr(Items(data[HEADER_LEN..]))
    ensures r.Some? ==> r.value == ExpandAll(Items(data[HEADER_LEN..]))
  {
    ghost var attrs := Items(data[HEADER_LEN..]);
    ghost var end := Foreseen(0, [], attrs, []);
    Regroup([], [], ExpandAll(attrs), []);
    FlatOfItems(data[HEADER_LEN..]);
    var ptr, length: int := HEADER_LEN, |data| - HEADER_LEN;
    var vendorcode: word, vendorlen: int := 0, 0;
    var out: seq<WireAttr> := [];
    ghost var subs: seq<Attr>, todo := [], attrs;
    Regroup(Flat(attrs), [], Flat(attrs), []);
    while length > 0
      invariant HEADER_LEN <= ptr <= |data| && ptr + length == |data|
      invariant data[ptr..] == Flat(subs) + Flat(todo) && vendorlen == |Flat(subs)|
      invariant end == Foreseen(vendorcode, subs, todo, out) && AllSane(todo)
      decreases length
    {
      var i: Item;
      i, subs, todo := ReadItem(data, ptr, vendorcode, vendorlen, end, subs, todo, out);
      if i.attrlen < 0 {
        return None;
      }
      out := out + [WireAttr(i.attribute, data[i.start..i.start + i.attrlen])];
      ptr := i.start + i.attrlen;
      length := |data| - ptr;
      vendorcode, vendorlen := i.vendorcode, i.vendorlen;
      if vendorlen > 0 {
        vendorlen := vendorlen - (i.attrlen + 2);
      }
    }
    FlatNonEmpty(subs);
    FlatNonEmpty(todo);
    Regroup(out, [], [], []);
    return Some(out);
  }
}
