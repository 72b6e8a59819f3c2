/**
 Attribute-value pairs and the octets rad_send writes for one of them (radius.c).
 */
module Attributes {
  import opened Octets
  import opened Wire
  import opened Password

  datatype PairType =
    | Text | Integer | IpAddr | Date | ABinary | RawOctets | IfId | Ipv6Addr | Ipv6Prefix | Unknown

  /** A VALUE_PAIR: `value` is strvalue up to `length`, `lvalue` the numeric value (an address stands
      for the number its octets spell), `tag` a signed char. */
  datatype Pair = Pair(attribute: word, typ: PairType, value: seq<byte>, lvalue: word,
                       hasTag: bool, tag: int, encrypt: byte)

  const USER_PASSWORD := 2
  const ENCRYPT_USER_PASSWORD: byte := 1
  const ENCRYPT_TUNNEL_PASSWORD: byte := 2
  const ENCRYPT_ASCEND_SECRET: byte := 3

  /** What the octets of a pair depend on: the digest function, shared secret and authenticator that
      hide passwords, an arbitrary hiding for the other two styles, and the octets that stand in a
      Message-Authenticator (zero until the packet is signed). */
  datatype Context = Context(md5: Hash, secret: seq<byte>, vector: Digest,
                             other: (byte, seq<byte>) -> seq<byte>, mac: Digest)

  predicate TagValid(tag: int)
  {
    0 < tag < 0x20
  }

  function Vendor(p: Pair): (v: nat)
    ensures v < 0x1_0000
  {
    p.attribute / 0x1_0000
  }

  /** Attributes beyond 255 without a vendor are internal to the server. */
  predicate OnWire(p: Pair)
  {
    !(Vendor(p) == 0 && p.attribute % 0x1_0000 > 0xff)
  }

  /** The types rad_send copies octet by octet. */
  predicate Stringy(t: PairType)
  {
    t.Text? || t.ABinary? || t.RawOctets? || t.IfId? || t.Ipv6Addr? || t.Ipv6Prefix?
  }

  function Encryption(p: Pair): (e: byte)
  {
    if p.attribute == USER_PASSWORD then ENCRYPT_USER_PASSWORD else p.encrypt
  }

  /** strvalue after the Message-Authenticator has been blanked and passwords have been hidden. */
  function Prepared(c: Context, p: Pair): (v: seq<byte>)
  {
    var v: seq<byte> := if p.attribute == MESSAGE_AUTHENTICATOR as int then c.mac else p.value;
    if Encryption(p) == ENCRYPT_USER_PASSWORD then Hidden(c.md5, c.secret, c.vector, v)
    else if Encryption(p) == ENCRYPT_TUNNEL_PASSWORD || Encryption(p) == ENCRYPT_ASCEND_SECRET
    then c.other(Encryption(p), v)
    else v
  }

  function TagOctets(p: Pair): (t: seq<byte>)
    ensures |t| <= 1
  {
    if !p.hasTag then []
    else if TagValid(p.tag) then [p.tag]
    else if Encryption(p) == ENCRYPT_TUNNEL_PASSWORD then [0]
    else []
  }

  function TaggedInteger(p: Pair): (v: word)
  {
    if p.hasTag then p.lvalue % 0x100_0000 + (if TagValid(p.tag) then p.tag else 0) * 0x100_0000
    else p.lvalue
  }

  function Payload(c: Context, p: Pair): (s: seq<byte>)
  {
    if Stringy(p.typ) then TagOctets(p) + Prepared(c, p)
    else if p.typ.Integer? then ToBe32(TaggedInteger(p))
    else if p.typ.IpAddr? || p.typ.Date? then ToBe32(p.lvalue)
    else []
  }

  // ---------------------------------------------------------------- headers

  /** The octets in front of the payload when the length octets say it has `n` octets. */
  function Header(p: Pair, n: nat): (h: seq<byte>)
    requires n <= Room(p)
    ensures |h| == Overhead(p)
  {
    if Vendor(p) == 0 then [p.attribute % 256, 2 + n]
    else if Vendor(p) == USR then [VENDOR_SPECIFIC, 10 + n] + ToBe32(Vendor(p)) + ToBe32(p.attribute % 0x1_0000)
    else [VENDOR_SPECIFIC, 8 + n] + ToBe32(Vendor(p)) + [p.attribute % 256, 2 + n]
  }

  function Overhead(p: Pair): (n: nat)
  {
    if Vendor(p) == 0 then 2 else if Vendor(p) == USR then 10 else 8
  }

  /** How many payload octets the length octet leaves room for: 253, 247 or 245. */
  function Room(p: Pair): (n: nat)
    ensures n + Overhead(p) == 255
  {
    255 - Overhead(p)
  }

  /** The payload octets the length octets and total_length account for. */
  function CutLen(c: Context, p: Pair): (n: nat)
    ensures n <= Room(p)
  {
    Min(|Payload(c, p)|, Room(p))
  }

  /** All octets written for a pair: too long a payload is cut in the length octets, not in the copy. */
  function Emit(c: Context, p: Pair): (s: seq<byte>)
  {
    Header(p, CutLen(c, p)) + Payload(c, p)
  }

  /** What the pair adds to total_length. */
  function Counted(c: Context, p: Pair): (n: nat)
    ensures 2 <= n <= 255
  {
    Overhead(p) + CutLen(c, p)
  }

  predicate Fits(c: Context, p: Pair)
  {
    |Payload(c, p)| <= Room(p)
  }

  /** The pair is framed right exactly when its payload fits its slot. */
  lemma FramedExactlyWhenFits(c: Context, p: Pair)
    ensures Counted(c, p) <= |Emit(c, p)|
    ensures Counted(c, p) == |Emit(c, p)| <==> Fits(c, p)
  {
  }

  /** The attribute of the grammar that carries the payload `s` of a pair. */
  function Shape(p: Pair, s: seq<byte>): (a: Attr)
    requires |s| <= Room(p)
  {
    if Vendor(p) == 0 then Attr(p.attribute % 256, s)
    else if Vendor(p) == USR then Attr(VENDOR_SPECIFIC, ToBe32(Vendor(p)) + ToBe32(p.attribute % 0x1_0000) + s)
    else Attr(VENDOR_SPECIFIC, ToBe32(Vendor(p)) + Tlv(Attr(p.attribute % 256, s)))
  }

  lemma HeaderIsTlv(p: Pair, s: seq<byte>)
    requires |s| <= Room(p)
    ensures Header(p, |s|) + s == Tlv(Shape(p, s))
  {
    var v := ToBe32(Vendor(p));
    if Vendor(p) == 0 {
    } else if Vendor(p) == USR {
      var w := ToBe32(p.attribute % 0x1_0000);
      Regroup4([VENDOR_SPECIFIC, 10 + |s|], v, w, s);
    } else {
      Regroup4([VENDOR_SPECIFIC, 8 + |s|], v, [p.attribute % 256, 2 + |s|], s);
    }
  }

  lemma Regroup4<T>(a: seq<T>, b: seq<T>, c: seq<T>, d: seq<T>)
    ensures a + b + c + d == a + (b + c + d)
    ensures a + b + c + d == a + (b + (c + d))
  {
  }

  /** A pair that fits, as an attribute of the grammar. */
  function ToAttr(c: Context, p: Pair): (a: Attr)
    requires Fits(c, p)
  {
    Shape(p, Payload(c, p))
  }

  /** The octets of a pair that fits are exactly that attribute, so each Vendor-Specific length
      octet is 6 more than the inner one. */
  lemma EmitIsTlv(c: Context, p: Pair)
    requires Fits(c, p)
    ensures Emit(c, p) == Tlv(ToAttr(c, p))
  {
    HeaderIsTlv(p, Payload(c, p));
  }
}
