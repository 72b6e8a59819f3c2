/**
 Serialisation of a list of pairs (the attribute loop of rad_send in radius.c).
 */
module Send {
  import opened Octets
  import opened Wire
  import opened Attributes

  /** memcpy into the packet buffer. */
  method Put(data: array<byte>, at: nat, s: seq<byte>)
    requires at + |s| <= data.Length
    modifies data
    ensures data[..] == Splice(old(data[..]), at, s)
  {
    for i := 0 to |s|
      invariant data[..] == Splice(old(data[..]), at, s[..i])
    {
      SpliceTwice(old(data[..]), at, s[..i], [s[i]]);
      data[at + i] := s[i];
      assert s[..i] + [s[i]] == s[..i + 1];
    }
    assert s[..|s|] == s;
  }

  /** Write `s` behind what has been written since `start`. */
  method Append(data: array<byte>, start: nat, at: nat, s: seq<byte>, ghost d: seq<byte>, ghost w: seq<byte>)
    requires |d| == data.Length && at == start + |w| && at + |s| <= data.Length
    requires data[..] == Splice(d, start, w)
    modifies data
    ensures data[..] == Splice(d, start, w + s)
  {
    SpliceTwice(d, start, w, s);
    Put(data, at, s);
  }

  /** Add `n` to a length octet written since `start`. */
  method Bump(data: array<byte>, start: nat, at: nat, n: nat, ghost d: seq<byte>, ghost w: seq<byte>)
    requires |d| == data.Length && start <= at < start + |w| && start + |w| <= data.Length
    requires data[..] == Splice(d, start, w) && w[at - start] as int + n < 256
    modifies data
    ensures data[..] == Splice(d, start, w[at - start := w[at - start] as int + n])
  {
    assert data[at] == data[..][at] == w[at - start];
    SpliceOver(d, start, w, at - start, w[at - start] as int + n);
    data[at] := data[at] as int + n;
  }

  // ---------------------------------------------------------------- one pair

  /** Where the header writer leaves the cursor and the two pointers to length octets; a negative
      pointer stands for NULL. */
  datatype Cursor = Cursor(ptr: nat, lengthPtr: nat, vsaLengthPtr: int, added: nat)

  function CursorAfterHeader(p: Pair, start: nat): (c: Cursor)
  {
    if Vendor(p) == 0 then Cursor(start + 2, start + 1, -1, 2)
    else if Vendor(p) == USR then Cursor(start + 10, start + 1, -1, 10)
    else Cursor(start + 8, start + 7, start + 1, 8)
  }

  /** Raising the length octets of an empty pair accounts for its payload. */
  lemma HeaderGrows(p: Pair, n: nat, s: seq<byte>)
    requires n <= Room(p)
    ensures var h := Header(p, 0) + s;
            Header(p, n) + s == if Vendor(p) == 0 then h[1 := 2 + n]
                                else if Vendor(p) == USR then h[1 := 10 + n]
                                else h[7 := 2 + n][1 := 8 + n]
  {
  }

  /** The Vendor-Specific wrapper and the attribute header of one pair. */
  method PutHeader(p: Pair, data: array<byte>, start: nat) returns (c: Cursor)
    requires start + Overhead(p) <= data.Length
    modifies data
    ensures c == CursorAfterHeader(p, start)
    ensures data[..] == Splice(old(data[..]), start, Header(p, 0))
  {
    ghost var d := data[..];
    if Vendor(p) == 0 {
      Put(data, start, [p.attribute % 256, 2]);
      c := Cursor(start + 2, start + 1, -1, 2);
    } else {
      var vsaLengthPtr := start + 1;
      Put(data, start, [VENDOR_SPECIFIC, 6]);
      Append(data, start, start + 2, ToBe32(Vendor(p)), d, [VENDOR_SPECIFIC, 6]);
      c := PutInnerHeader(p, data, start, vsaLengthPtr, d);
    }
  }

  /** The part of the header inside the Vendor-Specific wrapper, whose length octet it raises. */
  method PutInnerHeader(p: Pair, data: array<byte>, start: nat, vsaLengthPtr: nat, ghost d: seq<byte>)
    returns (c: Cursor)
    requires Vendor(p) != 0 && start + Overhead(p) <= data.Length == |d| && vsaLengthPtr == start + 1
    requires data[..] == Splice(d, start, [VENDOR_SPECIFIC, 6] + ToBe32(Vendor(p)))
    modifies data
    ensures c == CursorAfterHeader(p, start)
    ensures data[..] == Splice(d, start, Header(p, 0))
  {
    ghost var w: seq<byte> := [VENDOR_SPECIFIC, 6] + ToBe32(Vendor(p));
    if Vendor(p) == USR {
      var number := ToBe32(p.attribute % 0x1_0000);
      Append(data, start, start + 6, number, d, w);
      Bump(data, start, vsaLengthPtr, 4, d, w + number);
      assert (w + number)[1 := 10] == Header(p, 0);
      c := Cursor(start + 10, vsaLengthPtr, -1, 10);
    } else {
      var number: seq<byte> := [p.attribute % 256, 2];
      Append(data, start, start + 6, number, d, w);
      Bump(data, start, vsaLengthPtr, 2, d, w + number);
      assert (w + number)[1 := 8] == Header(p, 0);
      c := Cursor(start + 8, start + 7, vsaLengthPtr, 8);
    }
  }

  /** The length octets of one pair, raised by the payload that is accounted for. */
  method RaiseLengths(p: Pair, data: array<byte>, start: nat, c: Cursor, n: nat, ghost d: seq<byte>, ghost s: seq<byte>)
    requires n <= Room(p) && c == CursorAfterHeader(p, start)
    requires |d| == data.Length && start + Overhead(p) + |s| <= data.Length
    requires data[..] == Splice(d, start, Header(p, 0) + s)
    modifies data
    ensures data[..] == Splice(d, start, Header(p, n) + s)
  {
    ghost var h := Header(p, 0) + s;
    HeaderGrows(p, n, s);
    Bump(data, start, c.lengthPtr, n, d, h);
    if c.vsaLengthPtr >= 0 {
      Bump(data, start, c.vsaLengthPtr, n, d, h[7 := 2 + n]);
    }
  }

  /** A payload copied octet by octet: tag, value, and lengths cut to what the slot holds. */
  method PutString(p: Pair, data: array<byte>, start: nat, c: Cursor, tag: seq<byte>, value: seq<byte>,
                   ghost d: seq<byte>)
    returns (len: nat)
    requires c == CursorAfterHeader(p, start)
    requires |d| == data.Length && start + Overhead(p) + |tag| + |value| <= data.Length
    requires data[..] == Splice(d, start, Header(p, 0))
    modifies data
    ensures len == Min(|tag + value|, Room(p))
    ensures data[..] == Splice(d, start, Header(p, len) + (tag + value))
  {
    var allowed := SlotLeft(p, data, start, c, d);
    len := |tag| + |value|;
    if len > allowed {
      len := allowed;
    }
    Append(data, start, c.ptr, tag, d, Header(p, 0));
    Append(data, start, c.ptr + |tag|, value, d, Header(p, 0) + tag);
    Assoc(Header(p, 0), tag, value);
    RaiseLengths(p, data, start, c, len, d, tag + value);
  }

  /** What the length octet in charge leaves of 255. */
  method SlotLeft(p: Pair, data: array<byte>, start: nat, c: Cursor, ghost d: seq<byte>) returns (allowed: nat)
    requires c == CursorAfterHeader(p, start)
    requires |d| == data.Length && start + Overhead(p) <= data.Length
    requires data[..] == Splice(d, start, Header(p, 0))
    ensures allowed == Room(p)
  {
    var octet := if c.vsaLengthPtr >= 0 then data[c.vsaLengthPtr] else data[c.lengthPtr];
    assert data[start + 1] == data[..][start..start + Overhead(p)][1] == Header(p, 0)[1];
    allowed := 255 - octet as int;
  }

  /** A payload of four octets. */
  method PutNumber(p: Pair, data: array<byte>, start: nat, c: Cursor, octets: seq<byte>, ghost d: seq<byte>)
    requires c == CursorAfterHeader(p, start) && |octets| == 4
    requires |d| == data.Length && start + Overhead(p) + 4 <= data.Length
    requires data[..] == Splice(d, start, Header(p, 0))
    modifies data
    ensures data[..] == Splice(d, start, Header(p, 4) + octets)
  {
    Append(data, start, c.ptr, octets, d, Header(p, 0));
    RaiseLengths(p, data, start, c, 4, d, octets);
  }

  /** One turn of the attribute loop for a pair that goes on the wire. */
  method PutPair(ctx: Context, p: Pair, data: array<byte>, start: nat) returns (ptr: nat, added: nat)
    requires start + |Emit(ctx, p)| <= data.Length
    modifies data
    ensures ptr == start + |Emit(ctx, p)| && added == Counted(ctx, p)
    ensures data[..] == Splice(old(data[..]), start, Emit(ctx, p))
  {
    ghost var d := data[..];
    var c := PutHeader(p, data, start);
    if Stringy(p.typ) {
      var tag, value := TagOctets(p), Prepared(ctx, p);
      var len := PutString(p, data, start, c, tag, value, d);
      ptr, added := c.ptr + |tag| + |value|, c.added + len;
    } else if p.typ.Unknown? {
      assert Emit(ctx, p) == Header(p, 0);
      ptr, added := c.ptr, c.added;
    } else {
      PutNumber(p, data, start, c, ToBe32(if p.typ.Integer? then TaggedInteger(p) else p.lvalue), d);
      ptr, added := c.ptr + 4, c.added + 4;
    }
  }

  // ---------------------------------------------------------------- the list

  const BUFFER_LEN := MAX_PACKET_LEN + 256

  /** The octets of all pairs that go on the wire. */
  function EmitAll(c: Context, vps: seq<Pair>): (s: seq<byte>)
  {
    if vps == [] then []
    else if !OnWire(vps[0]) then EmitAll(c, vps[1..])
    else Emit(c, vps[0]) + EmitAll(c, vps[1..])
  }

  function CountAll(c: Context, vps: seq<Pair>): (n: nat)
  {
    if vps == [] then 0
    else if !OnWire(vps[0]) then CountAll(c, vps[1..])
    else Counted(c, vps[0]) + CountAll(c, vps[1..])
  }

  predicate AllFit(c: Context, vps: seq<Pair>)
  {
    vps == [] || ((OnWire(vps[0]) ==> Fits(c, vps[0])) && AllFit(c, vps[1..]))
  }

  /** No pair meets a total_length beyond the maximum: the test is made before each pair only. */
  predicate Sendable(c: Context, vps: seq<Pair>, total: nat)
  {
    vps == [] || (if !OnWire(vps[0]) then Sendable(c, vps[1..], total)
                  else total <= MAX_PACKET_LEN && Sendable(c, vps[1..], total + Counted(c, vps[0])))
  }

  /** What is written before the list ends or the test fails. */
  function Written(c: Context, vps: seq<Pair>, total: nat): (s: seq<byte>)
  {
    if vps == [] then []
    else if !OnWire(vps[0]) then Written(c, vps[1..], total)
    else if total > MAX_PACKET_LEN then []
    else Emit(c, vps[0]) + Written(c, vps[1..], total + Counted(c, vps[0]))
  }

  /** The offset of the last Message-Authenticator, or `last` if there is none. */
  function MacOffset(c: Context, vps: seq<Pair>, total: nat, last: nat): (n: nat)
  {
    if vps == [] then last
    else if !OnWire(vps[0]) then MacOffset(c, vps[1..], total, last)
    else MacOffset(c, vps[1..], total + Counted(c, vps[0]),
                   if vps[0].attribute == MESSAGE_AUTHENTICATOR as int then total else last)
  }

  lemma {:induction false} SendableWritesAll(c: Context, vps: seq<Pair>, total: nat)
    requires Sendable(c, vps, total)
    ensures Written(c, vps, total) == EmitAll(c, vps)
    decreases |vps|
  {
    if vps != [] {
      SendableWritesAll(c, vps[1..], if OnWire(vps[0]) then total + Counted(c, vps[0]) else total);
    }
  }

  /** Written octets and counted octets agree exactly when every pair fits its slot. */
  lemma {:induction false} FramingExactlyWhenAllFit(c: Context, vps: seq<Pair>)
    ensures CountAll(c, vps) <= |EmitAll(c, vps)|
    ensures CountAll(c, vps) == |EmitAll(c, vps)| <==> AllFit(c, vps)
  {
    if vps != [] {
      FramingExactlyWhenAllFit(c, vps[1..]);
      FramedExactlyWhenFits(c, vps[0]);
    }
  }

  /** The packet buffer of 4096 + 256 octets suffices for every list of pairs that fit their slots,
      however long the list: writing stops at the latest after the pair that crosses 4096. */
  lemma {:induction false} BufferSuffices(c: Context, vps: seq<Pair>, total: nat)
    requires AllFit(c, vps) && total <= MAX_PACKET_LEN + 255
    ensures total + |Written(c, vps, total)| <= 4096 + 255 < BUFFER_LEN == 4352
    decreases |vps|
  {
    if vps != [] {
      if !OnWire(vps[0]) {
        BufferSuffices(c, vps[1..], total);
      } else if total <= MAX_PACKET_LEN {
        FramedExactlyWhenFits(c, vps[0]);
        BufferSuffices(c, vps[1..], total + Counted(c, vps[0]));
      }
    }
  }

  datatype Built = TooLong | Built(total: nat, ptr: nat, macOffset: nat)

  /** What the loop will end with, seen from a point where `rest` is still to do. */
  datatype Outcome = Outcome(written: seq<byte>, sendable: bool, total: nat, span: nat, macOffset: nat)

  ghost function Foreseen(c: Context, rest: seq<Pair>, total: nat, w: seq<byte>, macOffset: nat): (o: Outcome)
  {
    Outcome(w + Written(c, rest, total), Sendable(c, rest, total), total + CountAll(c, rest),
            |w| + |EmitAll(c, rest)|, MacOffset(c, rest, total, macOffset))
  }

  /** Writing one pair does not change what the loop will end with. */
  lemma ForeseenStep(c: Context, rest: seq<Pair>, total: nat, w: seq<byte>, macOffset: nat)
    requires rest != [] && OnWire(rest[0]) && total <= MAX_PACKET_LEN
    ensures Foreseen(c, rest, total, w, macOffset)
         == Foreseen(c, rest[1..], total + Counted(c, rest[0]), w + Emit(c, rest[0]),
                     if rest[0].attribute == MESSAGE_AUTHENTICATOR as int then total else macOffset)
    ensures |w| + |Emit(c, rest[0])| <= |Foreseen(c, rest, total, w, macOffset).written|
  {
    var e, more := Emit(c, rest[0]), Written(c, rest[1..], total + Counted(c, rest[0]));
    Regroup3(w, e, more);
    assert Written(c, rest, total) == e + more;
  }

  lemma Regroup3<T>(a: seq<T>, b: seq<T>, c: seq<T>)
    ensures a + (b + c) == a + b + c && |a| + |b| <= |a + (b + c)|
  {
  }

  lemma ForeseenSkip(c: Context, rest: seq<Pair>, total: nat, w: seq<byte>, macOffset: nat)
    requires rest != [] && !OnWire(rest[0])
    ensures Foreseen(c, rest, total, w, macOffset) == Foreseen(c, rest[1..], total, w, macOffset)
  {
  }

  lemma ForeseenStop(c: Context, rest: seq<Pair>, total: nat, w: seq<byte>, macOffset: nat)
    requires rest == [] || (OnWire(rest[0]) && total > MAX_PACKET_LEN)
    ensures Foreseen(c, rest, total, w, macOffset).written == w
    ensures Foreseen(c, rest, total, w, macOffset).sendable <==> rest == []
    ensures rest == [] ==> Foreseen(c, rest, total, w, macOffset) == Outcome(w, true, total, |w|, macOffset)
  {
    assert w + [] == w;
  }

  method AppendPair(c: Context, p: Pair, data: array<byte>, start: nat, ghost d: seq<byte>, ghost w: seq<byte>)
    returns (ptr: nat, added: nat)
    requires |d| == data.Length && start == HEADER_LEN + |w| && start + |Emit(c, p)| <= data.Length
    requires data[..] == Splice(d, HEADER_LEN, w)
    modifies data
    ensures ptr == start + |Emit(c, p)| && added == Counted(c, p)
    ensures data[..] == Splice(d, HEADER_LEN, w + Emit(c, p))
  {
    SpliceTwice(d, HEADER_LEN, w, Emit(c, p));
    ptr, added := PutPair(c, p, data, start);
  }

  /** One turn of the loop for a pair that goes on the wire. */
  method NextPair(c: Context, rest: seq<Pair>, data: array<byte>, ptr: nat, total: nat, macOffset: nat,
                  ghost d: seq<byte>, ghost w: seq<byte>, ghost end: Outcome)
    returns (ptr': nat, total': nat, macOffset': nat, ghost w': seq<byte>)
    requires rest != [] && OnWire(rest[0]) && total <= MAX_PACKET_LEN
    requires |d| == data.Length && ptr == HEADER_LEN + |w| <= HEADER_LEN + |end.written| <= data.Length
    requires data[..] == Splice(d, HEADER_LEN, w) && end == Foreseen(c, rest, total, w, macOffset)
    modifies data
    ensures ptr' == HEADER_LEN + |w'| && |w'| <= |end.written|
    ensures data[..] == Splice(d, HEADER_LEN, w') && end == Foreseen(c, rest[1..], total', w', macOffset')
  {
    ForeseenStep(c, rest, total, w, macOffset);
    macOffset' := if rest[0].attribute == MESSAGE_AUTHENTICATOR as int then total else macOffset;
    var added;
    ptr', added := AppendPair(c, rest[0], data, ptr, d, w);
    total', w' := total + added, w + Emit(c, rest[0]);
  }

  lemma ForeseenStart(c: Context, vps: seq<Pair>)
    ensures Foreseen(c, vps, HEADER_LEN, [], 0)
         == Outcome(Written(c, vps, HEADER_LEN), Sendable(c, vps, HEADER_LEN), HEADER_LEN + CountAll(c, vps),
                    |EmitAll(c, vps)|, MacOffset(c, vps, HEADER_LEN, 0))
  {
    assert [] + Written(c, vps, HEADER_LEN) == Written(c, vps, HEADER_LEN);
  }

  /** The attribute loop of rad_send. */
  method BuildBody(c: Context, vps: seq<Pair>, data: array<byte>) returns (r: Built)
    requires HEADER_LEN + |Written(c, vps, HEADER_LEN)| <= data.Length
    modifies data
    ensures data[..] == Splice(old(data[..]), HEADER_LEN, Written(c, vps, HEADER_LEN))
    ensures r.Built? <==> Sendable(c, vps, HEADER_LEN)
    ensures r.Built? ==> r == Built(HEADER_LEN + CountAll(c, vps), HEADER_LEN + |EmitAll(c, vps)|,
                                    MacOffset(c, vps, HEADER_LEN, 0))
  {
    ForeseenStart(c, vps);
    r := BuildAll(c, vps, data, Foreseen(c, vps, HEADER_LEN, [], 0));
  }

  /** The loop itself, up to the end that is foreseen. */
  method BuildAll(c: Context, vps: seq<Pair>, data: array<byte>, ghost end: Outcome) returns (r: Built)
    requires end == Foreseen(c, vps, HEADER_LEN, [], 0) && HEADER_LEN + |end.written| <= data.Length
    modifies data
    ensures data[..] == Splice(old(data[..]), HEADER_LEN, end.written)
    ensures r.Built? <==> end.sendable
    ensures r.Built? ==> r == Built(end.total, HEADER_LEN + end.span, end.macOffset)
  {
    ghost var d, w: seq<byte> := data[..], [];
    var total: nat, ptr: nat, macOffset: nat := HEADER_LEN, HEADER_LEN, 0;
    var i := 0;
    assert vps[0..] == vps;
    while i < |vps|
      invariant i <= |vps| && ptr == HEADER_LEN + |w|
      invariant |w| <= |end.written| && data[..] == Splice(d, HEADER_LEN, w)
      invariant end == Foreseen(c, vps[i..], total, w, macOffset)
    {
      assert vps[i..][0] == vps[i] && vps[i..][1..] == vps[i + 1..];
      if OnWire(vps[i]) {
        if total > MAX_PACKET_LEN {
          ForeseenStop(c, vps[i..], total, w, macOffset);
          return TooLong;
        }
        ptr, total, macOffset, w := NextPair(c, vps[i..], data, ptr, total, macOffset, d, w, end);
      } else {
        ForeseenSkip(c, vps[i..], total, w, macOffset);
      }
      i := i + 1;
    }
    ForeseenStop(c, vps[i..], total, w, macOffset);
    return Built(total, ptr, macOffset);
  }
}
