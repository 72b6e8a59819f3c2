/**
 HMAC-MD5 (hmac.c) against section 2 of RFC 2104.
 */
module Hmac {
  import opened Octets
  import opened Md5

  const IPAD: byte := 0x36
  const OPAD: byte := 0x5c

  function Repeat(b: byte, n: nat): (s: seq<byte>)
    ensures |s| == n
    ensures forall i :: 0 <= i < n ==> s[i] == b
  {
    seq(n, _ => b)
  }

  /** Section 2 of RFC 2104: a key longer than a block is hashed first, then filled up with zeros. */
  function BlockKey(h: seq<byte> -> Digest, key: seq<byte>): (k: Block)
  {
    var short: seq<byte> := if |key| > 64 then h(key) else key;
    short + Zeros(64 - |short|)
  }

  /** H((K xor opad) followed by H((K xor ipad) followed by text)). */
  function Hmac(h: seq<byte> -> Digest, key: seq<byte>, text: seq<byte>): (d: Digest)
  {
    var k := BlockKey(h, key);
    var inner := h(XorSeq(k, Repeat(IPAD, 64)) + text);
    h(XorSeq(k, Repeat(OPAD, 64)) + inner)
  }

  /** The key enters as it is padded: an empty key leaves 64 octets 36 and 64 octets 5c. */
  lemma EmptyKey(h: seq<byte> -> Digest, text: seq<byte>)
    ensures Hmac(h, [], text) == h(seq(64, _ => 0x5c) + h(seq(64, _ => 0x36) + text))
  {
    ZeroXor(0x36);
    ZeroXor(0x5c);
    assert [] + Zeros(64) == Zeros(64);
    assert XorSeq(Zeros(64), Repeat(0x36, 64)) == seq(64, _ => 0x36);
    assert XorSeq(Zeros(64), Repeat(0x5c, 64)) == seq(64, _ => 0x5c);
  }

  lemma ZeroXor(b: byte)
    ensures Xor(0, b) == b
  {
    XorCommutes(0, b);
    XorNatZero(b);
  }

  /** The octets of the two pads, for every key of at most 64 octets. */
  lemma PadOctets(h: seq<byte> -> Digest, key: seq<byte>, text: seq<byte>, inner: seq<byte>, outer: seq<byte>)
    requires |key| <= 64 && |inner| == |outer| == 64
    requires forall i :: 0 <= i < 64 ==> inner[i] == Xor(if i < |key| then key[i] else 0, 0x36)
    requires forall i :: 0 <= i < 64 ==> outer[i] == Xor(if i < |key| then key[i] else 0, 0x5c)
    ensures Hmac(h, key, text) == h(outer + h(inner + text))
  {
    var k := BlockKey(h, key);
    assert XorSeq(k, Repeat(IPAD, 64)) == inner && XorSeq(k, Repeat(OPAD, 64)) == outer;
  }

  /** A key longer than 64 octets stands for its digest. */
  lemma LongKey(h: seq<byte> -> Digest, key: seq<byte>, text: seq<byte>)
    requires |key| > 64
    ensures Hmac(h, key, text) == Hmac(h, h(key), text)
  {
  }

  /** memset, memcpy and the xor loop for one pad array. */
  method FillPad(key: seq<byte>, pad: byte) returns (k: array<byte>)
    requires |key| <= 64
    ensures fresh(k) && k.Length == 65
    ensures k[..64] == XorSeq(key + Zeros(64 - |key|), Repeat(pad, 64))
  {
    k := new byte[65](_ => 0);
    for i := 0 to |key|
      invariant k[..64] == key[..i] + Zeros(64 - i)
    {
      k[i] := key[i];
    }
    ghost var full := key + Zeros(64 - |key|);
    assert k[..64] == full;
    for i := 0 to 64
      invariant forall j :: 0 <= j < i ==> k[j] == Xor(full[j], pad)
      invariant forall j :: i <= j < 64 ==> k[j] == full[j]
    {
      k[i] := Xor(k[i], pad);
    }
  }

  /** One pass: a 64-octet pad, then `data`, then the digest written over `digest`. */
  method Pass(f: Compress, pad: seq<byte>, data: seq<byte>, digest: array<byte>)
    requires |pad| == 64 && |data| < 0x8000_0000 && digest.Length == 16
    modifies digest
    ensures digest[..] == DigestOf(f, pad + data)
  {
    var context := new Context(f);
    context.Update(pad);
    context.Update(data);
    assert [] + pad == pad;
    context.Final(digest);
  }

  /** lrad_hmac_md5.  `digest` receives the inner result, is read back by the outer pass and then
      overwritten with the outer result. */
  method HmacMd5(f: Compress, text: seq<byte>, key: seq<byte>, digest: array<byte>)
    requires |text| < 0x8000_0000 && |key| < 0x8000_0000 && digest.Length == 16
    modifies digest
    ensures digest[..] == Hmac(m => DigestOf(f, m), key, text)
  {
    ghost var h := m => DigestOf(f, m);
    var short := key;
    if |key| > 64 {
      short := Calc(f, key);
    }
    assert short + Zeros(64 - |short|) == BlockKey(h, key);
    var ipad := FillPad(short, IPAD);
    var opad := FillPad(short, OPAD);
    Pass(f, ipad[..64], text, digest);
    assert digest[..] == h(XorSeq(BlockKey(h, key), Repeat(IPAD, 64)) + text);
    Pass(f, opad[..64], digest[..], digest);
  }
}
