/**
 Whole runs: a packet is sent, received, checked and decoded, and answered (radius.c).
 */
module Exchange {
  import opened Octets
  import opened Wire
  import opened Packet
  import opened Attributes
  import opened Send
  import opened Receive
  import opened Decode
  import opened Signature
  import opened Transmit
  import opened Verdicts
  import opened Values
  import opened Survival

  // ---------------------------------------------------------------- rad_send and rad_decode

  /** What rad_send counts stays below the size of its buffer. */
  lemma {:induction false} SendableTotal(c: Context, vps: seq<Pair>, total: nat)
    requires Sendable(c, vps, total) && total <= MAX_PACKET_LEN + 255
    ensures total + CountAll(c, vps) <= MAX_PACKET_LEN + 255 < BUFFER_LEN
    decreases |vps|
  {
    if vps != [] {
      SendableTotal(c, vps[1..], if OnWire(vps[0]) then total + Counted(c, vps[0]) else total);
    }
  }

  /** The header fields and the attributes in the buffer, with the length field still to be written. */
  method Serialise(c: Context, code: byte, id: byte, vps: seq<Pair>, data: array<byte>) returns (r: Built)
    requires data.Length == BUFFER_LEN && HEADER_LEN + |Written(c, vps, HEADER_LEN)| <= BUFFER_LEN
    modifies data
    ensures r.Built? <==> Sendable(c, vps, HEADER_LEN)
    ensures r.Built? ==>
              && r.total == HEADER_LEN + CountAll(c, vps) <= data.Length
              && r.macOffset == MacOffset(c, vps, HEADER_LEN, 0)
              && data[..2] == [code, id] && data[4..20] == FirstVector(code, c.vector)
              && CountAll(c, vps) <= |EmitAll(c, vps)| && data[20..r.total] == EmitAll(c, vps)[..CountAll(c, vps)]
  {
    Put(data, 0, [code, id]);
    Put(data, VECTOR_AT, FirstVector(code, c.vector));
    ghost var d := data[..];
    assert d[..2] == [code, id] && d[4..20] == FirstVector(code, c.vector);
    r := BuildBody(c, vps, data);
    if r.Built? {
      SendableTotal(c, vps, HEADER_LEN);
      SendableWritesAll(c, vps, HEADER_LEN);
      FramingExactlyWhenAllFit(c, vps);
      SplicedBody(d, EmitAll(c, vps), CountAll(c, vps));
      ghost var e := data[..];
      assert data[..2] == e[..2] && data[4..20] == e[4..20] && data[20..r.total] == e[20..r.total];
    }
  }

  lemma SplicedBody(d: seq<byte>, body: seq<byte>, n: nat)
    requires HEADER_LEN + |body| <= |d| && n <= |body|
    ensures var e := Splice(d, HEADER_LEN, body);
            e[..2] == d[..2] && e[4..20] == d[4..20] && e[20..20 + n] == body[..n]
  {
  }

  lemma LengthCompletes(d: seq<byte>, code: byte, id: byte, vector: Digest, body: seq<byte>)
    requires |d| == HEADER_LEN + |body| < 0x1_0000
    requires d[..2] == [code, id] && d[4..20] == vector && d[20..] == body
    ensures Splice(d, 2, ToBe16(|d|)) == PacketHeader(code, id, |d|, vector) + body
  {
    assert d[4..] == d[4..20] + d[20..];
    Regroup([code, id], ToBe16(|d|), vector, body);
  }

  /** The counted octets of the buffer as a packet of their own, with the length field written. */
  method CopyOut(c: Context, code: byte, id: byte, vps: seq<Pair>, data: array<byte>, total: nat)
    returns (copy: array<byte>)
    requires total == HEADER_LEN + CountAll(c, vps) <= data.Length < 0x1_0000
    requires data[..2] == [code, id] && data[4..20] == FirstVector(code, c.vector)
    requires CountAll(c, vps) <= |EmitAll(c, vps)| && data[20..total] == EmitAll(c, vps)[..CountAll(c, vps)]
    ensures fresh(copy) && copy[..] == Serialised(c, code, id, vps)
  {
    copy := new byte[total](i requires 0 <= i < total && total <= data.Length reads data => data[i]);
    ghost var d := data[..total];
    assert copy[..] == d && d[..2] == data[..2] && d[4..20] == data[4..20] && d[20..] == data[20..total];
    LengthCompletes(d, code, id, FirstVector(code, c.vector), EmitAll(c, vps)[..CountAll(c, vps)]);
    Put(copy, 2, ToBe16(total));
  }

  /** rad_send up to the socket, for a packet that has not been serialised before and a list whose octets
      stay inside the buffer and leave the keyed digest its room in the packet: it fails exactly when the
      list outgrows the maximum, and otherwise leaves the signed packet in `packet`, cut to what was
      counted. */
  method RadSend(cr: Crypto, packet: RadiusPacket, c: Context, vps: seq<Pair>, original: Option<Digest>)
    returns (ok: bool)
    requires 0 <= packet.code < 256 && 0 <= packet.id < 256 && c.vector == packet.vector && c.mac == Zeros(16)
    requires HEADER_LEN + |Written(c, vps, HEADER_LEN)| <= BUFFER_LEN
    requires Sendable(c, vps, HEADER_LEN) ==> RoomForMac(c, vps)
    modifies packet
    ensures ok <==> Sendable(c, vps, HEADER_LEN)
    ensures packet.code == old(packet.code) && packet.id == old(packet.id)
    ensures ok ==>
              && Signable(c, vps) && fresh(packet.data)
              && packet.data[..] == Sent(cr, c, packet.code, packet.id, original, vps)
              && packet.vector == if Unsigned(packet.code) then c.vector else VectorOf(packet.data[..])
  {
    var data := new byte[BUFFER_LEN];
    var built := Serialise(c, packet.code, packet.id, vps, data);
    if built.TooLong? {
      return false;
    }
    SendableTotal(c, vps, HEADER_LEN);
    packet.data := CopyOut(c, packet.code, packet.id, vps, data, built.total);
    MacInsideSerialised(c, packet.code, packet.id, vps);
    SignPacket(cr, packet, original, c.secret, built.macOffset);
    return true;
  }

  /** The list rad_decode makes of the octets it got: none where the extraction or a pair faults. */
  function PairsOf(k: Keys, data: seq<byte>, undo: Undo, dict: Dictionary, peek: nat -> byte): (r: Option<seq<Pair>>)
    requires Walkable(data)
  {
    var attrs := Items(data[HEADER_LEN..]);
    if NoShortUsr(attrs) then DecodeAll(k, undo, dict, ExpandAll(attrs), peek) else None
  }

  /** rad_decode on a packet rad_recv accepted: a wrong authenticator stops it before any attribute
      is extracted, otherwise passwords are uncovered with the request's vector or the packet's. */
  method RadDecode(cr: Crypto, packet: RadiusPacket, original: Option<Digest>, secret: seq<byte>,
                   undo: Undo, dict: Dictionary, peek: nat -> byte)
    returns (checks: seq<bool>, ok: bool, pairs: Option<seq<Pair>>)
    requires Walkable(packet.data[..]) && packet.vector == VectorOf(packet.data[..])
    modifies packet`verified, packet.data
    ensures checks == VerdictsAt(cr, packet.code, original, secret, old(packet.data[..]), MacsOf(old(packet.data[..])))
    ensures ok <==> AuthenticatorPasses(cr.md5, packet.code, old(packet.data[..]), original, secret)
    ensures pairs == if ok then PairsOf(ReceiverKeys(cr, secret, original, packet.vector), old(packet.data[..]),
                                        undo, dict, peek)
                     else None
  {
    ghost var d := packet.data[..];
    checks, ok := Verify(cr, packet, original, secret);
    pairs := None;
    if ok {
      BehindVector(d, Zeros(16));
      var attrs := Extract(packet.data[..]);
      if attrs.Some? {
        pairs := BuildPairs(ReceiverKeys(cr, secret, original, packet.vector), undo, dict, attrs.value, peek);
      }
    }
  }

  // ---------------------------------------------------------------- runs

  lemma {:induction false} SmallIsSendable(c: Context, vps: seq<Pair>, total: nat)
    requires total + CountAll(c, vps) <= MAX_PACKET_LEN
    ensures Sendable(c, vps, total)
    decreases |vps|
  {
    if vps != [] {
      SmallIsSendable(c, vps[1..], if OnWire(vps[0]) then total + Counted(c, vps[0]) else total);
    }
  }

  /** What one end learns from one packet. */
  datatype Report = Report(macs: seq<bool>, authentic: bool, pairs: Option<seq<Pair>>)

  /** Every check succeeded, and the pairs are those the sender meant exactly when they survive. */
  ghost predicate Reported(cr: Crypto, c: Context, code: byte, id: byte, original: Option<Digest>, vps: seq<Pair>,
                       undo: Undo, dict: Dictionary, peek: nat -> byte, r: Report)
    requires Signable(c, vps)
  {
    && AllTrue(r.macs) && r.authentic
    && (r.pairs == Some(Meant(c, FinalMac(cr, c, code, id, original, vps), vps))
        <==> Survives(cr, c, code, id, original, vps, undo, dict, peek))
  }

  /** One packet from rad_send through rad_recv to rad_decode. */
  method Transmission(cr: Crypto, packet: RadiusPacket, c: Context, vps: seq<Pair>, original: Option<Digest>,
                      beyond: Memory, maxAttributes: int, undo: Undo, dict: Dictionary, peek: nat -> byte)
    returns (received: RadiusPacket, r: Report)
    requires 0 <= packet.code < 256 && 0 <= packet.id < 256 && c.vector == packet.vector
    requires Deliverable(c, packet.code, vps) && Verifiable(packet.code, c.vector, original, MacCount(vps))
    requires maxAttributes > 0 ==> |Attrs(c, vps)| <= maxAttributes
    modifies packet
    ensures fresh(received) && received.code == packet.code == old(packet.code)
    ensures received.id == packet.id == old(packet.id)
    ensures Reported(cr, c, packet.code, packet.id, original, vps, undo, dict, peek, r)
    ensures received.vector == packet.vector && (Unsigned(packet.code) ==> packet.vector == c.vector)
  {
    SmallIsSendable(c, vps, HEADER_LEN);
    BufferSuffices(c, vps, HEADER_LEN);
    var ok := RadSend(cr, packet, c, vps, original);
    var datagram := packet.data[..];
    WireRoundTrip(cr, c, packet.code, packet.id, original, vps, maxAttributes);
    SentHeader(cr, c, packet.code, packet.id, original, vps);
    received := Accept(datagram, beyond, maxAttributes);
    ReceiverAgrees(cr, c, packet.code, packet.id, original, vps);
    var checks, authentic, pairs := RadDecode(cr, received, original, c.secret, undo, dict, peek);
    r := Report(checks, authentic, pairs);
  }

  /** rad_recv on an acceptable datagram without padding. */
  method Accept(datagram: seq<byte>, beyond: Memory, maxAttributes: int) returns (received: RadiusPacket)
    requires Acceptable(datagram, maxAttributes) && FromBe16(datagram[2..4]) == |datagram|
    ensures fresh(received) && fresh(received.data) && received.data[..] == datagram
    ensures received.code == datagram[0] && received.id == datagram[1] && received.vector == VectorOf(datagram)
  {
    var r := Receive.Receive(datagram, beyond, maxAttributes);
    assert datagram[..|datagram|] == datagram;
    received := r;
  }

  lemma SentHeader(cr: Crypto, c: Context, code: byte, id: byte, original: Option<Digest>, vps: seq<Pair>)
    requires Signable(c, vps)
    ensures var sent := Sent(cr, c, code, id, original, vps);
            sent[0] == code && sent[1] == id && (Unsigned(code) ==> VectorOf(sent) == c.vector)
  {
    SentStart(cr, c, code, id, original, vps);
    VectorOfSent(cr, c, code, id, original, vps);
    var sent := Sent(cr, c, code, id, original, vps);
    assert sent[0] == sent[..4][0] && sent[1] == sent[..4][1];
  }

  function FreshContext(cr: Crypto, secret: seq<byte>, vector: Digest,
                        other: (byte, seq<byte>) -> seq<byte>): (c: Context)
  {
    Context(cr.md5, secret, vector, other, Zeros(16))
  }

  /** The report of an end that got the list the sender meant, exactly if its pairs are representable. */
  ghost predicate Faithful(cr: Crypto, c: Context, code: byte, id: byte, original: Option<Digest>, vps: seq<Pair>,
                           peek: nat -> byte, r: Report)
    requires Signable(c, vps)
  {
    var meant := Meant(c, FinalMac(cr, c, code, id, original, vps), vps);
    r.pairs == Some(meant) <==> AllRepresentable(c, meant, peek)
  }

  /** A request and its reply.  The server answers with the vector of the request it received, the
      client checks the reply against the request it sent: everything verifies at both ends.  The client
      gets the server's list exactly if it is representable, and so does the server the client's, unless
      it hides a password in a request that is signed. */
  method RequestResponse(cr: Crypto, secret: seq<byte>, other: (byte, seq<byte>) -> seq<byte>, beyond: Memory,
                         request: RadiusPacket, vps: seq<Pair>, replyCode: byte, replyVps: seq<Pair>,
                         undo: Undo, dict: Dictionary, peek: nat -> byte)
    returns (server: Report, client: Report, ghost sentVector: Digest)
    requires 0 <= request.code < 256 && 0 <= request.id < 256
    requires Deliverable(FreshContext(cr, secret, request.vector, other), request.code, vps)
    requires forall v: Digest :: Deliverable(FreshContext(cr, secret, v, other), replyCode, replyVps)
    requires Verifiable(request.code, request.vector, None, MacCount(vps))
    requires Verifiable(replyCode, request.vector, Some(request.vector), MacCount(replyVps))
    requires AllRegular(dict, vps) && AllRegular(dict, replyVps)
    modifies request
    ensures AllTrue(server.macs) && server.authentic && AllTrue(client.macs) && client.authentic
    ensures Unsigned(old(request.code)) || !SendsHidden(vps) ==>
              Faithful(cr, FreshContext(cr, secret, old(request.vector), other), old(request.code), old(request.id),
                       None, vps, peek, server)
    ensures var c := FreshContext(cr, secret, sentVector, other);
            Deliverable(c, replyCode, replyVps)
            && Faithful(cr, c, replyCode, old(request.id), Some(sentVector), replyVps, peek, client)
  {
    var c := FreshContext(cr, secret, request.vector, other);
    var received;
    received, server := Transmission(cr, request, c, vps, None, beyond, 0, undo, dict, peek);
    if Unsigned(request.code) || !SendsHidden(vps) {
      PairsSurviveExactly(cr, c, request.code, request.id, None, vps, undo, dict, peek);
    }
    sentVector := request.vector;
    var reply := new RadiusPacket(replyCode, received.id, received.vector, []);
    var c' := FreshContext(cr, secret, reply.vector, other);
    assert Deliverable(c', replyCode, replyVps);
    var received';
    received', client := Transmission(cr, reply, c', replyVps, Some(request.vector), beyond, 0, undo, dict, peek);
    PairsSurviveExactly(cr, c', replyCode, reply.id, Some(sentVector), replyVps, undo, dict, peek);
  }
}
