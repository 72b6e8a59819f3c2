/**
 Signing of a packet (the end of rad_send) and checking of a received one (the first half of
 rad_decode, calc_acctdigest and calc_replydigest) in radius.c.

 MD5 and HMAC are arbitrary functions here.
 */
module Signature {
  import opened Octets
  import opened Wire
  import opened Packet
  import opened Send

  const VECTOR_AT := 4

  /** The digest function, and the keyed digest of (key, text). */
  datatype Crypto = Crypto(md5: Hash, hmac: (seq<byte>, seq<byte>) -> Digest)

  function WithVector(data: seq<byte>, vector: Digest): (r: seq<byte>)
    requires HEADER_LEN <= |data|
    ensures |r| == |data|
  {
    Splice(data, VECTOR_AT, vector)
  }

  function VectorOf(data: seq<byte>): (v: Digest)
    requires HEADER_LEN <= |data|
  {
    data[VECTOR_AT..HEADER_LEN]
  }

  /** The value of a Message-Authenticator attribute at `at` lies inside the packet. */
  predicate MacInside(data: seq<byte>, at: nat)
  {
    HEADER_LEN <= at && at + 18 <= |data|
  }

  /** The replies whose Message-Authenticator covers the authenticator of the request. */
  predicate CoversRequest(code: int)
  {
    code == ACCESS_ACCEPT || code == ACCESS_REJECT || code == ACCESS_CHALLENGE
  }

  /** The text a Message-Authenticator at `at` is computed over. */
  function MacText(code: int, original: Option<Digest>, data: seq<byte>, at: nat): (t: seq<byte>)
    requires HEADER_LEN <= |data| && MacInside(data, at)
  {
    var d := if CoversRequest(code) && original.Some? then WithVector(data, original.value) else data;
    Splice(d, at + 2, Zeros(16))
  }

  // ---------------------------------------------------------------- the sender

  /** The authenticator rad_send first puts into the header. */
  function FirstVector(code: int, vector: Digest): (v: Digest)
  {
    if code == ACCOUNTING_REQUEST || code == DISCONNECT_REQUEST then Zeros(16) else vector
  }

  /** The packet with its Message-Authenticator filled in and the packet's vector in the header. */
  function WithMac(cr: Crypto, code: int, vector: Digest, original: Option<Digest>, secret: seq<byte>,
                   data: seq<byte>, at: nat): (r: seq<byte>)
    requires HEADER_LEN <= |data| && MacInside(data, at)
    ensures |r| == |data|
  {
    var text := MacText(code, original, data, at);
    WithVector(Splice(text, at + 2, cr.hmac(secret, text)), vector)
  }

  predicate Unsigned(code: int)
  {
    code == ACCESS_REQUEST || code == STATUS_SERVER
  }

  /** What rad_send turns the serialised packet into; `at` is the offset of the Message-Authenticator,
      zero if there is none. */
  function Sign(cr: Crypto, code: int, vector: Digest, original: Option<Digest>, secret: seq<byte>,
                data: seq<byte>, at: nat): (r: seq<byte>)
    requires HEADER_LEN <= |data| && (at != 0 ==> MacInside(data, at))
    ensures |r| == |data|
  {
    var d := if at != 0 then WithMac(cr, code, vector, original, secret, data, at) else data;
    if Unsigned(code) then d else WithVector(d, cr.md5(d + secret))
  }

  /** The signing tail of rad_send, on the packet whose data has just been allocated. */
  method SignPacket(cr: Crypto, packet: RadiusPacket, original: Option<Digest>, secret: seq<byte>, at: nat)
    requires HEADER_LEN <= packet.data.Length && (at != 0 ==> MacInside(packet.data[..], at))
    modifies packet, packet.data
    ensures packet.data == old(packet.data) && packet.code == old(packet.code) && packet.id == old(packet.id)
    ensures packet.data[..] == Sign(cr, packet.code, old(packet.vector), original, secret, old(packet.data[..]), at)
    ensures packet.vector == if Unsigned(packet.code) then old(packet.vector) else VectorOf(packet.data[..])
  {
    if at != 0 {
      FillMac(cr, packet, original, secret, at);
    }
    if !Unsigned(packet.code) {
      var digest := cr.md5(packet.data[..] + secret);
      Put(packet.data, VECTOR_AT, digest);
      packet.vector := digest;
    }
  }

  /** The request's vector where it is covered, then a blank authenticator value. */
  method BlankToSend(packet: RadiusPacket, original: Option<Digest>, at: nat)
    requires HEADER_LEN <= packet.data.Length && MacInside(packet.data[..], at)
    modifies packet.data
    ensures packet.data[..] == MacText(packet.code, original, old(packet.data[..]), at)
  {
    if CoversRequest(packet.code) && original.Some? {
      Put(packet.data, VECTOR_AT, original.value);
    }
    BlankValue(packet, original, at, old(packet.data[..]));
  }

  method BlankValue(packet: RadiusPacket, ghost original: Option<Digest>, at: nat, ghost d: seq<byte>)
    requires HEADER_LEN <= |d| && MacInside(d, at)
    requires packet.data[..]
          == if CoversRequest(packet.code) && original.Some? then WithVector(d, original.value) else d
    modifies packet.data
    ensures packet.data[..] == MacText(packet.code, original, d, at)
  {
    Put(packet.data, at + 2, Zeros(16));
  }

  method FillMac(cr: Crypto, packet: RadiusPacket, original: Option<Digest>, secret: seq<byte>, at: nat)
    requires HEADER_LEN <= packet.data.Length && MacInside(packet.data[..], at)
    modifies packet.data
    ensures packet.data[..] == WithMac(cr, packet.code, packet.vector, original, secret, old(packet.data[..]), at)
  {
    ghost var text := MacText(packet.code, original, packet.data[..], at);
    BlankToSend(packet, original, at);
    var mac := cr.hmac(secret, packet.data[..]);
    Put(packet.data, at + 2, mac);
    ghost var filled := Splice(text, at + 2, mac);
    assert packet.data[..] == filled;
    Put(packet.data, VECTOR_AT, packet.vector);
    assert packet.data[..] == WithVector(filled, packet.vector);
  }

  // ---------------------------------------------------------------- packets that differ in two fields

  /** `data` with a given request authenticator and a given Message-Authenticator value. */
  function Form(data: seq<byte>, vector: Digest, at: nat, mac: Digest): (r: seq<byte>)
    requires HEADER_LEN <= |data| && MacInside(data, at)
    ensures |r| == |data|
  {
    Splice(WithVector(data, vector), at + 2, mac)
  }

  lemma VectorOfForm(data: seq<byte>, v: Digest, at: nat, m: Digest)
    requires HEADER_LEN <= |data| && MacInside(data, at)
    ensures VectorOf(Form(data, v, at, m)) == v
    ensures Form(data, v, at, m)[at + 2..at + 18] == m
  {
    SpliceSlices(WithVector(data, v), at + 2, m, VECTOR_AT, VECTOR_AT + 16);
    SpliceSlices(data, VECTOR_AT, v, 0, 0);
  }

  lemma FormWithVector(data: seq<byte>, v: Digest, at: nat, m: Digest, v': Digest)
    requires HEADER_LEN <= |data| && MacInside(data, at)
    ensures WithVector(Form(data, v, at, m), v') == Form(data, v', at, m)
  {
    SpliceCommutes(WithVector(data, v), VECTOR_AT, v', at + 2, m);
    SpliceAgain(data, VECTOR_AT, v, v');
  }

  lemma FormWithMac(data: seq<byte>, v: Digest, at: nat, m: Digest, m': Digest)
    requires HEADER_LEN <= |data| && MacInside(data, at)
    ensures Splice(Form(data, v, at, m), at + 2, m') == Form(data, v, at, m')
  {
    SpliceAgain(WithVector(data, v), at + 2, m, m');
  }

  lemma AsForm(data: seq<byte>, at: nat)
    requires HEADER_LEN <= |data| && MacInside(data, at)
    ensures data == Form(data, VectorOf(data), at, data[at + 2..at + 18])
  {
    SpliceBack(data, VECTOR_AT, 16);
    SpliceBack(data, at + 2, 16);
  }

  function TextVector(code: int, original: Option<Digest>, inPacket: Digest): (v: Digest)
  {
    if CoversRequest(code) && original.Some? then original.value else inPacket
  }

  lemma MacTextForm(code: int, original: Option<Digest>, data: seq<byte>, v: Digest, at: nat, m: Digest)
    requires HEADER_LEN <= |data| && MacInside(data, at)
    ensures MacText(code, original, Form(data, v, at, m), at)
         == Form(data, TextVector(code, original, v), at, Zeros(16))
  {
    if CoversRequest(code) && original.Some? {
      FormWithVector(data, v, at, m, original.value);
    }
    FormWithMac(data, TextVector(code, original, v), at, m, Zeros(16));
  }

  // ---------------------------------------------------------------- the receiver

  /** The Message-Authenticator at `at` is what the receiver computes. */
  predicate MacOk(cr: Crypto, code: int, original: Option<Digest>, secret: seq<byte>, data: seq<byte>, at: nat)
    requires HEADER_LEN <= |data| && MacInside(data, at)
  {
    cr.hmac(secret, MacText(code, original, data, at)) == data[at + 2..at + 18]
  }

  /** One check of rad_decode.  The authenticator is blanked, the request's vector may be put in, and
      both are put back: the packet ends as it was. */
  method CheckMac(cr: Crypto, packet: RadiusPacket, original: Option<Digest>, secret: seq<byte>, at: nat)
    returns (ok: bool)
    requires HEADER_LEN <= packet.data.Length && MacInside(packet.data[..], at)
    requires packet.vector == VectorOf(packet.data[..])
    modifies packet.data
    ensures packet.data[..] == old(packet.data[..])
    ensures ok <==> MacOk(cr, packet.code, original, secret, old(packet.data[..]), at)
  {
    ghost var d := packet.data[..];
    var saved := packet.data[at + 2..at + 18];
    assert saved == d[at + 2..at + 18];
    Blank(packet, original, at);
    ok := cr.hmac(secret, packet.data[..]) == saved;
    PutBack(packet, original, at, saved, d);
  }

  /** Zero the authenticator value, and put the request's vector in where it is covered. */
  method Blank(packet: RadiusPacket, original: Option<Digest>, at: nat)
    requires HEADER_LEN <= packet.data.Length && MacInside(packet.data[..], at)
    modifies packet.data
    ensures packet.data[..] == MacText(packet.code, original, old(packet.data[..]), at)
  {
    ghost var d := packet.data[..];
    Put(packet.data, at + 2, Zeros(16));
    assert packet.data[..] == Splice(d, at + 2, Zeros(16));
    if CoversRequest(packet.code) && original.Some? {
      CoverVector(packet.data, original.value, at, d);
    }
  }

  method CoverVector(data: array<byte>, vector: Digest, at: nat, ghost d: seq<byte>)
    requires HEADER_LEN <= |d| == data.Length && MacInside(d, at) && data[..] == Splice(d, at + 2, Zeros(16))
    modifies data
    ensures data[..] == Splice(WithVector(d, vector), at + 2, Zeros(16))
  {
    SpliceCommutes(d, VECTOR_AT, vector, at + 2, Zeros(16));
    Put(data, VECTOR_AT, vector);
  }

  method PutBack(packet: RadiusPacket, ghost original: Option<Digest>, at: nat, saved: seq<byte>, ghost d: seq<byte>)
    requires HEADER_LEN <= |d| == packet.data.Length && MacInside(d, at)
    requires packet.data[..] == MacText(packet.code, original, d, at)
    requires saved == d[at + 2..at + 18] && packet.vector == VectorOf(d)
    modifies packet.data
    ensures packet.data[..] == d
  {
    Restored(packet.code, original, d, at);
    ghost var text := MacText(packet.code, original, d, at);
    Put(packet.data, at + 2, saved);
    assert packet.data[..] == Splice(text, at + 2, saved);
    Put(packet.data, VECTOR_AT, packet.vector);
  }

  lemma Restored(code: int, original: Option<Digest>, d: seq<byte>, at: nat)
    requires HEADER_LEN <= |d| && MacInside(d, at)
    ensures WithVector(Splice(MacText(code, original, d, at), at + 2, d[at + 2..at + 18]), VectorOf(d)) == d
  {
    var saved, vector := d[at + 2..at + 18], VectorOf(d);
    var v := TextVector(code, original, vector);
    AsForm(d, at);
    MacTextForm(code, original, d, vector, at, saved);
    FormWithMac(d, v, at, Zeros(16), saved);
    FormWithVector(d, v, at, saved, vector);
  }

  /** The verdicts on the Message-Authenticators at the given offsets, in order. */
  function VerdictsAt(cr: Crypto, code: int, original: Option<Digest>, secret: seq<byte>, data: seq<byte>,
                      offsets: seq<nat>)
    : (r: seq<bool>)
    requires HEADER_LEN <= |data|
    requires forall i :: 0 <= i < |offsets| ==> MacInside(data, offsets[i])
    ensures |r| == |offsets|
  {
    seq(|offsets|, i requires 0 <= i < |offsets| => MacOk(cr, code, original, secret, data, offsets[i]))
  }

  lemma VerdictsSnoc(cr: Crypto, code: int, original: Option<Digest>, secret: seq<byte>, data: seq<byte>,
                     offsets: seq<nat>, at: nat)
    requires HEADER_LEN <= |data| && MacInside(data, at)
    requires forall i :: 0 <= i < |offsets| ==> MacInside(data, offsets[i])
    ensures VerdictsAt(cr, code, original, secret, data, offsets + [at])
         == VerdictsAt(cr, code, original, secret, data, offsets) + [MacOk(cr, code, original, secret, data, at)]
  {
  }

  /** What the first loop of rad_decode walks over: attributes that exactly fill the packet. */
  predicate Walkable(data: seq<byte>)
  {
    HEADER_LEN <= |data| && Tiled(data[HEADER_LEN..]) && AllSane(Items(data[HEADER_LEN..]))
  }

  /** The offsets of all Message-Authenticators of a packet. */
  function MacsOf(data: seq<byte>): (r: seq<nat>)
    requires Walkable(data)
    ensures forall i :: 0 <= i < |r| ==> MacInside(data, r[i])
  {
    FlatOfItems(data[HEADER_LEN..]);
    SaneMacsFull(Items(data[HEADER_LEN..]));
    OffsetsInside(Items(data[HEADER_LEN..]), HEADER_LEN);
    Offsets(Items(data[HEADER_LEN..]), HEADER_LEN)
  }

  /** `checks` are the verdicts at the offsets `seen`. */
  ghost predicate Checked(cr: Crypto, code: int, original: Option<Digest>, secret: seq<byte>, data: seq<byte>,
                          seen: seq<nat>, checks: seq<bool>)
    requires HEADER_LEN <= |data|
  {
    && (forall i :: 0 <= i < |seen| ==> MacInside(data, seen[i]))
    && checks == VerdictsAt(cr, code, original, secret, data, seen)
  }

  /** One turn of the first loop of rad_decode, at the first attribute of `todo`. */
  method CheckAttribute(cr: Crypto, packet: RadiusPacket, original: Option<Digest>, secret: seq<byte>, ptr: nat,
                        checks: seq<bool>, ghost seen: seq<nat>, ghost todo: seq<Attr>)
    returns (attrlen: nat, checks': seq<bool>, ghost seen': seq<nat>)
    requires HEADER_LEN <= ptr < packet.data.Length && packet.vector == VectorOf(packet.data[..])
    requires packet.data[..][ptr..] == Flat(todo) && AllSane(todo)
    requires Checked(cr, packet.code, original, secret, packet.data[..], seen, checks)
    modifies packet.data
    ensures packet.data[..] == old(packet.data[..])
    ensures todo != [] && attrlen == 2 + |todo[0].body| && ptr + attrlen <= packet.data.Length
    ensures packet.data[..][ptr + attrlen..] == Flat(todo[1..])
    ensures seen' + Offsets(todo[1..], ptr + attrlen) == seen + Offsets(todo, ptr)
    ensures Checked(cr, packet.code, original, secret, packet.data[..], seen', checks')
  {
    ghost var d := packet.data[..];
    AtAttr(d, ptr, todo);
    attrlen, checks', seen' := packet.data[ptr + 1], checks, seen;
    if packet.data[ptr] == MESSAGE_AUTHENTICATOR {
      var ok := CheckMac(cr, packet, original, secret, ptr);
      VerdictsSnoc(cr, packet.code, original, secret, d, seen, ptr);
      Assoc(seen, [ptr], Offsets(todo[1..], ptr + attrlen));
      checks', seen' := checks + [ok], seen + [ptr];
    }
  }

  /** The first loop of rad_decode over a packet filled by `attrs`. */
  method CheckList(cr: Crypto, packet: RadiusPacket, original: Option<Digest>, secret: seq<byte>,
                   ghost attrs: seq<Attr>)
    returns (checks: seq<bool>)
    requires HEADER_LEN <= packet.data.Length && packet.vector == VectorOf(packet.data[..])
    requires packet.data[..][HEADER_LEN..] == Flat(attrs) && AllSane(attrs)
    modifies packet.data
    ensures packet.data[..] == old(packet.data[..])
    ensures Checked(cr, packet.code, original, secret, packet.data[..], Offsets(attrs, HEADER_LEN), checks)
  {
    ghost var d := packet.data[..];
    ghost var todo, seen: seq<nat> := attrs, [];
    checks := [];
    var ptr, length := HEADER_LEN, packet.data.Length - HEADER_LEN;
    while length > 0
      invariant HEADER_LEN <= ptr && ptr + length == |d| && 0 <= length
      invariant packet.data[..] == d && d[ptr..] == Flat(todo) && AllSane(todo)
      invariant Offsets(attrs, HEADER_LEN) == seen + Offsets(todo, ptr)
      invariant Checked(cr, packet.code, original, secret, d, seen, checks)
    {
      var attrlen;
      attrlen, checks, seen := CheckAttribute(cr, packet, original, secret, ptr, checks, seen, todo);
      todo := todo[1..];
      ptr, length := ptr + attrlen, length - attrlen;
    }
    FlatNonEmpty(todo);
    assert seen + [] == seen;
  }

  /** The first loop of rad_decode on an accepted packet, whose vector is the one in its header: one
      verdict for each Message-Authenticator, and the packet ends as it was. */
  method CheckMacs(cr: Crypto, packet: RadiusPacket, original: Option<Digest>, secret: seq<byte>)
    returns (checks: seq<bool>)
    requires Walkable(packet.data[..]) && packet.vector == VectorOf(packet.data[..])
    modifies packet.data
    ensures packet.data[..] == old(packet.data[..])
    ensures checks == VerdictsAt(cr, packet.code, original, secret, packet.data[..], MacsOf(packet.data[..]))
  {
    ghost var body := packet.data[..][HEADER_LEN..];
    FlatOfItems(body);
    checks := CheckList(cr, packet, original, secret, Items(body));
  }

  /** calc_acctdigest: 1 for a blank authenticator, 0 if it is right, 2 if it is wrong. */
  function AcctVerdict(md5: Hash, data: seq<byte>, secret: seq<byte>): (v: int)
    requires HEADER_LEN <= |data|
  {
    if VectorOf(data) == Zeros(16) then 1
    else if md5(WithVector(data, Zeros(16)) + secret) == VectorOf(data) then 0 else 2
  }

  /** calc_replydigest: 3 without a request, 0 if the authenticator is right, 2 if it is wrong. */
  function ReplyVerdict(md5: Hash, data: seq<byte>, original: Option<Digest>, secret: seq<byte>): (v: int)
    requires HEADER_LEN <= |data|
  {
    if original.None? then 3
    else if md5(WithVector(data, original.value) + secret) == VectorOf(data) then 0 else 2
  }

  /** What the switch on the packet code in rad_decode demands. */
  predicate AuthenticatorPasses(md5: Hash, code: int, data: seq<byte>, original: Option<Digest>, secret: seq<byte>)
    requires HEADER_LEN <= |data|
  {
    if code == ACCOUNTING_REQUEST then AcctVerdict(md5, data, secret) <= 1
    else if code == ACCESS_ACCEPT || code == ACCESS_REJECT || code == ACCOUNTING_RESPONSE
    then ReplyVerdict(md5, data, original, secret) <= 1
    else true
  }

  /** calc_acctdigest and calc_replydigest behind the switch on the packet code. */
  method CheckAuthenticator(cr: Crypto, packet: RadiusPacket, original: Option<Digest>, secret: seq<byte>)
    returns (ok: bool)
    requires HEADER_LEN <= packet.data.Length && packet.vector == VectorOf(packet.data[..])
    modifies packet`verified, packet.data
    ensures ok <==> AuthenticatorPasses(cr.md5, packet.code, old(packet.data[..]), original, secret)
    ensures packet.data[..] == if packet.code == ACCOUNTING_REQUEST && packet.vector != Zeros(16)
                               then WithVector(old(packet.data[..]), Zeros(16)) else old(packet.data[..])
    ensures packet.code == ACCOUNTING_REQUEST ==>
              packet.verified == AcctVerdict(cr.md5, old(packet.data[..]), secret)
  {
    if packet.code == ACCOUNTING_REQUEST {
      if packet.vector == Zeros(16) {
        packet.verified := 1;
        return true;
      }
      Put(packet.data, VECTOR_AT, Zeros(16));
      packet.verified := if cr.md5(packet.data[..] + secret) != packet.vector then 2 else 0;
      return packet.verified <= 1;
    }
    if packet.code == ACCESS_ACCEPT || packet.code == ACCESS_REJECT || packet.code == ACCOUNTING_RESPONSE {
      if original.None? {
        return false;
      }
      ghost var d := packet.data[..];
      Put(packet.data, VECTOR_AT, original.value);
      var digest := cr.md5(packet.data[..] + secret);
      Put(packet.data, VECTOR_AT, packet.vector);
      SpliceAgain(d, VECTOR_AT, original.value, packet.vector);
      SpliceBack(d, VECTOR_AT, 16);
      packet.verified := if packet.vector != digest then 2 else 0;
      return packet.verified <= 1;
    }
    return true;
  }

  /** The checking half of rad_decode.  It overwrites parts of the packet and puts them back; what
      remains changed is only the authenticator of an Accounting-Request, and only if it was not
      blank.  A wrong Message-Authenticator is logged, not refused. */
  method Verify(cr: Crypto, packet: RadiusPacket, original: Option<Digest>, secret: seq<byte>)
    returns (checks: seq<bool>, ok: bool)
    requires Walkable(packet.data[..]) && packet.vector == VectorOf(packet.data[..])
    modifies packet`verified, packet.data
    ensures packet.data[..] == if packet.code == ACCOUNTING_REQUEST && packet.vector != Zeros(16)
                               then WithVector(old(packet.data[..]), Zeros(16)) else old(packet.data[..])
    ensures ok <==> AuthenticatorPasses(cr.md5, packet.code, old(packet.data[..]), original, secret)
    ensures checks == VerdictsAt(cr, packet.code, original, secret, old(packet.data[..]), MacsOf(old(packet.data[..])))
  {
    checks := CheckMacs(cr, packet, original, secret);
    ok := CheckAuthenticator(cr, packet, original, secret);
  }
}
