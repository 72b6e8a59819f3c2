/**
 The RADIUS_PACKET structure shared by sending, receiving and decoding.
 */
module Packet {
  import opened Octets

  const ACCESS_REQUEST := 1
  const ACCESS_ACCEPT := 2
  const ACCESS_REJECT := 3
  const ACCOUNTING_REQUEST := 4
  const ACCOUNTING_RESPONSE := 5
  const ACCESS_CHALLENGE := 11
  const STATUS_SERVER := 12
  const DISCONNECT_REQUEST := 40

  class RadiusPacket {
    var code: int
    var id: int
    var vector: Digest
    var data: array<byte>
    var verified: int

    constructor (code: int, id: int, vector: Digest, octets: seq<byte>)
      ensures this.code == code && this.id == id && this.vector == vector
      ensures fresh(data) && data[..] == octets
      ensures verified == 0
    {
      this.code, this.id, this.vector := code, id, vector;
      data := new byte[|octets|](i requires 0 <= i < |octets| => octets[i]);
      verified := 0;
    }
  }
}
