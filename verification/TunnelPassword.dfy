/**
 Tunnel-Password hiding (rad_tunnel_pwencode and rad_tunnel_pwdecode of radius.c, section 3.5 of
 RFC 2868).

 The random source is a pair of arbitrary words per call.
 */
module TunnelPassword {
  import opened Octets
  import opened Password

  const MAX_TUNNEL := 127

  function Cut(password: seq<byte>): (r: seq<byte>)
    ensures |r| <= MAX_TUNNEL
  {
    if |password| > MAX_TUNNEL then password[..MAX_TUNNEL] else password
  }

  /** The salt, then the chain over the length octet, the password and zero padding. */
  function TunnelHidden(md5: Hash, secret: seq<byte>, vector: Digest, salt: seq<byte>,
                        password: seq<byte>): (r: seq<byte>)
    requires |salt| == 2
    ensures |r| == 2 + RoundUp(1 + |Cut(password)|)
  {
    salt + Chain(md5, secret, vector + salt, ZeroPad([|Cut(password)|] + Cut(password)))
  }

  datatype Revealed = TooShort | Broken | Text(length: int, plain: seq<byte>)

  /** The value of an octet read through a plain (signed) `char`. */
  function SignedChar(b: byte): (r: int)
    ensures -128 <= r < 128
  {
    if b < 128 then b else b - 256
  }

  /** What the receiver makes of the octets: `plain` is the decoded area, length octet first. */
  function Reveal(md5: Hash, secret: seq<byte>, vector: Digest, data: seq<byte>): (r: Revealed)
  {
    if |data| < 3 then TooShort
    else
      var plain := Unchain(md5, secret, vector + data[..2], data[2..]);
      if plain[0] >= |data| - 2 then Broken else Text(SignedChar(plain[0]), plain)
  }

  /** Hiding and revealing restores the first min(n, 127) octets behind the length octet, and never
      takes the branch for a broken password. */
  lemma TunnelRoundTrip(md5: Hash, secret: seq<byte>, vector: Digest, salt: seq<byte>, password: seq<byte>)
    requires |salt| == 2
    ensures var r := Reveal(md5, secret, vector, TunnelHidden(md5, secret, vector, salt, password));
            r.Text? && r.length == |Cut(password)| && |r.plain| > r.length
            && r.plain[1..1 + r.length] == Cut(password)
  {
    var data := TunnelHidden(md5, secret, vector, salt, password);
    var plain := ZeroPad([|Cut(password)|] + Cut(password));
    assert data[..2] == salt && data[2..] == Chain(md5, secret, vector + salt, plain);
    UnchainOfChain(md5, secret, vector + salt, plain);
    assert plain[1..1 + |Cut(password)|] == Cut(password);
  }

  /** The layout of section 3.5 of RFC 2868 octet by octet: the salt, then the length and the password, filled up
      with zeros, each block under the digest of the secret and, for the first one, the request authenticator and
      the salt, for the others the block before. */
  lemma HiddenOctets(md5: Hash, secret: seq<byte>, vector: Digest, salt: seq<byte>, password: seq<byte>, k: nat, i: nat)
    requires |salt| == 2 && 16 * k <= Min(|password|, 127) && i < 16
    ensures var r := TunnelHidden(md5, secret, vector, salt, password);
            var n, j := Min(|password|, 127), 16 * k + i;
            && 18 + 16 * k <= |r| && r[..2] == salt
            && r[2 + j] == Xor(if j == 0 then n else if j <= n then password[j - 1] else 0,
                               md5(secret + if k == 0 then vector + salt else r[16 * k - 14..16 * k + 2])[i])
  {
    var text := [|Cut(password)|] + Cut(password);
    var plain := ZeroPad(text);
    var c := Chain(md5, secret, vector + salt, plain);
    RoundUpBounds(|text|, k);
    ChainOctets(md5, secret, vector + salt, plain, k, i);
    assert (salt + c)[2 + (16 * k + i)] == c[16 * k + i];
    if k > 0 {
      BehindSalt(salt, c, 16 * k - 16, 16 * k);
    }
    TextOctets(password, 16 * k + i);
  }

  lemma TextOctets(password: seq<byte>, j: nat)
    requires j < RoundUp(1 + |Cut(password)|)
    ensures ZeroPad([|Cut(password)|] + Cut(password))[j]
         == if j == 0 then |Cut(password)| else if j <= |Cut(password)| then password[j - 1] else 0
  {
  }

  lemma BehindSalt(salt: seq<byte>, c: seq<byte>, from: nat, to: nat)
    requires |salt| == 2 && from <= to <= |c|
    ensures (salt + c)[2 + from..2 + to] == c[from..to]
  {
  }

  /** Two request authenticators that the digest tells apart within the first block give different octets. */
  lemma VectorsDiffer(md5: Hash, secret: seq<byte>, vector: Digest, vector': Digest, salt: seq<byte>,
                      password: seq<byte>, i: nat)
    requires |salt| == 2 && i < 16
    requires md5(secret + (vector + salt))[i] != md5(secret + (vector' + salt))[i]
    ensures TunnelHidden(md5, secret, vector, salt, password)[2 + i]
         != TunnelHidden(md5, secret, vector', salt, password)[2 + i]
  {
    HiddenOctets(md5, secret, vector, salt, password, 0, i);
    HiddenOctets(md5, secret, vector', salt, password, 0, i);
    var n := Min(|password|, 127);
    var x: byte := if i == 0 then n else if i <= n then password[i - 1] else 0;
    XorDiffers(md5(secret + (vector + salt))[i], md5(secret + (vector' + salt))[i], x);
  }

  lemma XorDiffers(a: byte, b: byte, x: byte)
    requires a != b
    ensures Xor(x, a) != Xor(x, b)
  {
    XorCommutes(x, a);
    XorCommutes(x, b);
    XorCancels(a, x);
    XorCancels(b, x);
  }

  /** What the decoder makes of received octets: nothing of fewer than three; otherwise the third one, under the
      digest of secret, vector and salt, is a length that has to be less than what follows the salt. */
  lemma RevealOctets(md5: Hash, secret: seq<byte>, vector: Digest, data: seq<byte>)
    ensures Reveal(md5, secret, vector, data).TooShort? <==> |data| < 3
    ensures |data| >= 3 ==>
              var n := Xor(data[2], md5(secret + (vector + data[..2]))[0]);
              var r := Reveal(md5, secret, vector, data);
              && (r.Broken? <==> n as int >= |data| - 2)
              && (r.Text? ==> |r.plain| == |data| - 2 && r.length == if n < 128 then n as int else n as int - 256)
  {
    if |data| >= 3 {
      UnchainOctets(md5, secret, vector + data[..2], data[2..], 0, 0);
    }
  }

  // ---------------------------------------------------------------- salts

  /** The first salt octet: high bit, four bits of the call counter, three random bits. */
  function SaltOctet(offset: word, random: word): (b: byte)
    ensures b >= 0x80
  {
    0x80 + offset % 16 * 8 + random % 8
  }

  /** The salt of one call: the second octet is random. */
  function SaltOf(offset: word, random0: word, random1: word): (salt: seq<byte>)
    ensures |salt| == 2
  {
    [SaltOctet(offset, random0), random1 % 256]
  }

  /** The call counter `calls` calls later; it is an unsigned 32-bit integer. */
  function OffsetAfter(offset: word, calls: nat): (r: word)
  {
    (offset + calls) % WORD
  }

  /** Two encodings fewer than 16 calls apart get different first salt octets, whatever the random
      source returns, also across a wrap-around of the counter. */
  lemma SaltsDiffer(offset: word, i: nat, j: nat, r: word, r': word)
    requires i < j < i + 16
    ensures SaltOctet(OffsetAfter(offset, i), r) != SaltOctet(OffsetAfter(offset, j), r')
  {
    OffsetMod(offset, i);
    OffsetMod(offset, j);
    ModDiffers(offset + i, j - i);
  }

  lemma ModDiffers(x: nat, d: nat)
    requires 0 < d < 16
    ensures (x + d) % 16 != x % 16
  {
    var r := x % 16;
    assert x + d == 16 * (x / 16) + (r + d);
    assert (x + d) % 16 == if r + d < 16 then r + d else r + d - 16;
  }

  lemma ModIs(x: int, r: int, k: int)
    requires x == r + 16 * k && 0 <= r < 16
    ensures x % 16 == r
  {
  }

  lemma OffsetMod(offset: word, i: nat)
    ensures OffsetAfter(offset, i) % 16 == (offset + i) % 16
  {
    var x := offset + i;
    var q, y := x / WORD, x % WORD;
    assert x == q * WORD + y;
    ModIs(x, y % 16, y / 16 + q * 0x1000_0000);
  }

  // ---------------------------------------------------------------- the encoder

  lemma XoredBehind(s: seq<byte>, at: nat, n: nat, m: nat, d: Digest)
    requires at + n + m <= |s| && m <= 16
    ensures Xored(s, at + n, m, d)[at..] == Xored(s[at..], n, m, d)
    ensures Xored(s, at + n, m, d)[..at] == s[..at]
  {
    assert s[at..][n..n + m] == s[at + n..at + n + m];
  }

  class TunnelEncoder {
    /** The static counter `salt_offset`. */
    var saltOffset: word

    constructor ()
      ensures saltOffset == 0
    {
      saltOffset := 0;
    }

    /** rad_tunnel_pwencode, on the buffer whose first `pwlen` octets are the password. */
    method Encode(md5: Hash, passwd: array<byte>, pwlen: nat, secret: seq<byte>, vector: Digest,
                  random0: word, random1: word)
      returns (newLen: nat)
      requires pwlen <= passwd.Length && 131 <= passwd.Length
      modifies this, passwd
      ensures saltOffset == OffsetAfter(old(saltOffset), 1)
      ensures passwd[..2] == SaltOf(old(saltOffset), random0, random1)
      ensures newLen == 2 + RoundUp(1 + Min(pwlen, MAX_TUNNEL))
      ensures passwd[..newLen] == TunnelHidden(md5, secret, vector, passwd[..2], old(passwd[..pwlen]))
      ensures passwd[newLen] == 0
    {
      ghost var password := Cut(passwd[..pwlen]);
      newLen := Arrange(passwd, pwlen, SaltOctet(saltOffset, random0), random1 % 256);
      saltOffset := (saltOffset + 1) % WORD;
      ChainBehind(md5, passwd, newLen - 2, secret, vector, ZeroPad([|password|] + password));
      passwd[newLen] := 0;
    }
  }

  /** Make room for the salt and the length: passwd[n + 3] = passwd[n] for n from `len` down to 0. */
  method ShiftRight(passwd: array<byte>, len: nat)
    requires len + 4 <= passwd.Length
    modifies passwd
    ensures passwd[3..3 + len] == old(passwd[..len])
  {
    var n: int := len;
    while n >= 0
      invariant -1 <= n <= len
      invariant forall k :: n < k <= len ==> passwd[k + 3] == old(passwd[k])
      invariant forall k :: 0 <= k <= n ==> passwd[k] == old(passwd[k])
    {
      passwd[n + 3] := passwd[n];
      n := n - 1;
    }
  }

  /** Fill up the area behind the salt with zeros to whole blocks. */
  method PadBehind(passwd: array<byte>, len: nat) returns (newLen: nat)
    requires 2 + RoundUp(len) <= passwd.Length
    modifies passwd
    ensures newLen == 2 + RoundUp(len)
    ensures passwd[..2] == old(passwd[..2])
    ensures passwd[2..newLen] == ZeroPad(old(passwd[2..2 + len]))
  {
    newLen := 2 + len;
    if len % 16 != 0 {
      newLen := 2 + len + 16 - len % 16;
      ZeroFill(passwd, 2 + len, newLen);
    }
  }

  /** Salt, length octet, password and padding in place. */
  method Arrange(passwd: array<byte>, pwlen: nat, salt0: byte, salt1: byte) returns (newLen: nat)
    requires pwlen <= passwd.Length && 131 <= passwd.Length
    modifies passwd
    ensures newLen == 2 + RoundUp(1 + Min(pwlen, MAX_TUNNEL))
    ensures passwd[..2] == [salt0, salt1]
    ensures var password := Cut(old(passwd[..pwlen]));
            passwd[2..newLen] == ZeroPad([|password|] + password)
  {
    var len := Min(pwlen, MAX_TUNNEL);
    ghost var password := Cut(passwd[..pwlen]);
    assert password == passwd[..len];
    ShiftRight(passwd, len);
    passwd[0], passwd[1], passwd[2] := salt0, salt1, len;
    assert passwd[2..3 + len] == [len] + password;
    newLen := PadBehind(passwd, len + 1);
  }

  /** XorInto behind the salt. */
  method XorBehind(passwd: array<byte>, n: nat, m: nat, digest: Digest)
    requires 2 + n + m <= passwd.Length && m <= 16
    modifies passwd
    ensures passwd[..2] == old(passwd[..2])
    ensures passwd[2..] == Xored(old(passwd[2..]), n, m, digest)
  {
    ghost var s := passwd[..];
    assert s[2..] == passwd[2..] && s[..2] == passwd[..2];
    XoredBehind(s, 2, n, m, digest);
    XorInto(passwd, 2 + n, m, digest);
  }

  /** The loop of rad_tunnel_pwencode over all blocks behind the salt. */
  method ChainBehind(md5: Hash, passwd: array<byte>, len: nat, secret: seq<byte>, vector: Digest,
                     ghost plain: seq<byte>)
    requires len % 16 == 0 && 2 + len <= passwd.Length && |plain| == len
    requires passwd[2..2 + len] == plain
    modifies passwd
    ensures passwd[..2] == old(passwd[..2])
    ensures passwd[..2 + len] == passwd[..2] + Chain(md5, secret, vector + passwd[..2], plain)
  {
    var salt := passwd[..2];
    var n: nat := 0;
    ghost var blocks: nat := 0;
    assert passwd[2..][..len] == plain;
    while n < len
      invariant n <= len && n == 16 * blocks
      invariant passwd[..2] == salt
      invariant Chained(md5, secret, vector + salt, plain, passwd[2..], n)
    {
      ChainBlockBehind(md5, passwd, secret, vector, salt, n, plain);
      n, blocks := n + 16, blocks + 1;
    }
    AllChained(md5, secret, vector + salt, plain, passwd[2..]);
    assert passwd[..2 + len] == passwd[..2] + passwd[2..][..len];
  }

  method ChainBlockBehind(md5: Hash, passwd: array<byte>, secret: seq<byte>, vector: Digest, salt: seq<byte>, n: nat,
                          ghost plain: seq<byte>)
    requires 2 + |plain| <= passwd.Length && n + 16 <= |plain| && passwd[..2] == salt
    requires Chained(md5, secret, vector + salt, plain, passwd[2..], n)
    modifies passwd
    ensures passwd[..2] == salt && Chained(md5, secret, vector + salt, plain, passwd[2..], n + 16)
  {
    var s := if n == 0 then vector + salt else passwd[2 + n - 16..2 + n];
    assert n > 0 ==> passwd[2..][n - 16..n] == s;
    ChainedStep(md5, secret, vector + salt, plain, passwd[2..], n);
    XorBehind(passwd, n, 16, md5(secret + s));
  }

  lemma AllChained(md5: Hash, secret: seq<byte>, seed: seq<byte>, plain: seq<byte>, cur: seq<byte>)
    requires Chained(md5, secret, seed, plain, cur, |plain|)
    ensures cur[..|plain|] == Chain(md5, secret, seed, plain)
  {
    assert plain[..|plain|] == plain;
  }

  // ---------------------------------------------------------------- the decoder

  /** One block at `n` undone, with the cipher text of the block before it. */
  function UndoneAt(md5: Hash, secret: seq<byte>, seed: seq<byte>, cur: seq<byte>, len: nat, n: nat): (r: seq<byte>)
    requires (n == 0 || 16 <= n) && n < len <= |cur|
    ensures |r| == |cur|
  {
    Xored(cur, n, Min(16, len - n), md5(secret + if n == 0 then seed else cur[n - 16..n]))
  }

  /** The first `k` blocks undone, last to first. */
  function Undone(md5: Hash, secret: seq<byte>, seed: seq<byte>, cur: seq<byte>, len: nat, k: nat): (r: seq<byte>)
    requires len <= |cur| && (k > 0 ==> 16 * (k - 1) < len)
    ensures |r| == |cur|
    decreases k
  {
    if k == 0 then cur
    else Undone(md5, secret, seed, UndoneAt(md5, secret, seed, cur, len, 16 * (k - 1)), len, k - 1)
  }

  lemma UndoneOnce(md5: Hash, secret: seq<byte>, seed: seq<byte>, cur: seq<byte>, len: nat, k: nat, n: nat)
    requires len <= |cur| && k > 0 && n == 16 * (k - 1) < len
    ensures Undone(md5, secret, seed, cur, len, k)
         == Undone(md5, secret, seed, UndoneAt(md5, secret, seed, cur, len, n), len, k - 1)
  {
  }

  lemma {:induction false} UndoneUnchains(md5: Hash, secret: seq<byte>, seed: seq<byte>, cipher: seq<byte>,
                                          cur: seq<byte>, k: nat, n: nat)
    requires cipher != [] && |cipher| <= |cur| && (k > 0 ==> 16 * (k - 1) < |cipher|) && n == Min(16 * k, |cipher|)
    requires Unchained(md5, secret, seed, cipher, cur, 0, n)
    ensures Undone(md5, secret, seed, cur, |cipher|, k)[..|cipher|] == Unchain(md5, secret, seed, cipher)
    decreases k
  {
    if k == 0 {
      AllBehind(md5, secret, seed, cipher, cur);
    } else {
      var at := 16 * (k - 1);
      var next := UndoneAt(md5, secret, seed, cur, |cipher|, at);
      UndoneStep(md5, secret, seed, cipher, cur, at);
      UndoneOnce(md5, secret, seed, cur, |cipher|, k, at);
      UndoneUnchains(md5, secret, seed, cipher, next, k - 1, at);
    }
  }

  lemma UndoneStep(md5: Hash, secret: seq<byte>, seed: seq<byte>, cipher: seq<byte>, cur: seq<byte>, n: nat)
    requires (n == 0 || 16 <= n) && n < |cipher| <= |cur|
    requires Unchained(md5, secret, seed, cipher, cur, 0, Min(n + 16, |cipher|))
    ensures Unchained(md5, secret, seed, cipher, UndoneAt(md5, secret, seed, cur, |cipher|, n), 0, n)
  {
    if n > 0 {
      StillCipher(md5, secret, seed, cipher, cur, 0, Min(n + 16, |cipher|), n);
    }
    UnchainedStep(md5, secret, seed, cipher, cur, 0, n);
  }

  /** The do-while loop of rad_tunnel_pwdecode: all blocks behind the salt, last to first. */
  method UndoAll(md5: Hash, passwd: array<byte>, len: nat, last: nat, secret: seq<byte>, seed: seq<byte>)
    requires last * 16 < len && 2 + len <= passwd.Length
    modifies passwd
    ensures passwd[..2] == old(passwd[..2])
    ensures passwd[2..] == Undone(md5, secret, seed, old(passwd[2..]), len, last + 1)
  {
    var ntimes: int := last;
    ghost var salt, end := passwd[..2], Undone(md5, secret, seed, passwd[2..], len, last + 1);
    while ntimes >= 0
      invariant -1 <= ntimes && 16 * ntimes < len && passwd[..2] == salt
      invariant end == Undone(md5, secret, seed, passwd[2..], len, ntimes + 1)
      decreases ntimes
    {
      UndoBlockBehind(md5, passwd, len, secret, seed, 16 * ntimes);
      ntimes := ntimes - 1;
    }
  }

  lemma LastTimes(len: nat)
    requires 1 <= len
    ensures (len - 1) / 16 * 16 < len <= (len - 1) / 16 * 16 + 16
  {
  }

  method UndoBehind(md5: Hash, passwd: array<byte>, len: nat, secret: seq<byte>, vector: Digest)
    requires 1 <= len && 2 + len <= passwd.Length
    modifies passwd
    ensures passwd[..2] == old(passwd[..2])
    ensures passwd[2..2 + len] == Unchain(md5, secret, vector + passwd[..2], old(passwd[2..2 + len]))
  {
    ghost var cipher, cur := passwd[2..2 + len], passwd[2..];
    var salt := passwd[..2];
    assert cur[..len] == cipher;
    LastTimes(len);
    UndoAll(md5, passwd, len, (len - 1) / 16, secret, vector + salt);
    UndoneArea(md5, secret, vector + salt, cipher, cur, (len - 1) / 16 + 1);
    assert passwd[2..][..len] == passwd[2..2 + len];
  }

  lemma UndoneArea(md5: Hash, secret: seq<byte>, seed: seq<byte>, cipher: seq<byte>, cur: seq<byte>, k: nat)
    requires cipher != [] && |cipher| <= |cur| && cur[..|cipher|] == cipher
    requires 0 < k && 16 * (k - 1) < |cipher| <= 16 * k
    ensures Undone(md5, secret, seed, cur, |cipher|, k)[..|cipher|] == Unchain(md5, secret, seed, cipher)
  {
    assert Unchained(md5, secret, seed, cipher, cur, 0, |cipher|);
    UndoneUnchains(md5, secret, seed, cipher, cur, k, |cipher|);
  }

  lemma AllBehind(md5: Hash, secret: seq<byte>, seed: seq<byte>, cipher: seq<byte>, cur: seq<byte>)
    requires cipher != [] && Unchained(md5, secret, seed, cipher, cur, 0, 0)
    ensures cur[..|cipher|] == Unchain(md5, secret, seed, cipher)
  {
    assert cipher[0..] == cipher && cur[0..|cipher|] == cur[..|cipher|];
  }

  method UndoBlockBehind(md5: Hash, passwd: array<byte>, len: nat, secret: seq<byte>, seed: seq<byte>, n: nat)
    requires (n == 0 || 16 <= n) && n < len && 2 + len <= passwd.Length
    modifies passwd
    ensures passwd[..2] == old(passwd[..2])
    ensures passwd[2..] == UndoneAt(md5, secret, seed, old(passwd[2..]), len, n)
  {
    var s := if n == 0 then seed else passwd[2 + n - 16..2 + n];
    if n > 0 {
      SliceOfSlice(passwd[..], 2, passwd.Length, n - 16, n);
      assert passwd[2..] == passwd[..][2..passwd.Length] && s == passwd[..][2 + n - 16..2 + n];
    }
    XorBehind(passwd, n, Min(16, len - n), md5(secret + s));
  }

  /** rad_tunnel_pwdecode.  The result is the new length; the decoded text stays where it is, its
      length octet at offset 2 and the password itself from offset 3 on. */
  method Decode(md5: Hash, passwd: array<byte>, pwlen: nat, secret: seq<byte>, vector: Digest)
    returns (newLen: int)
    requires pwlen < passwd.Length && 4 <= passwd.Length
    modifies passwd
    ensures match Reveal(md5, secret, vector, old(passwd[..pwlen]))
            case TooShort => newLen == pwlen && passwd[..] == old(passwd[..])
            case Broken => newLen == 2 && passwd[2] == 0 && passwd[3] == 0
            case Text(length, plain) => newLen == length && passwd[2..pwlen] == plain
  {
    if pwlen < 3 {
      return pwlen;
    }
    ghost var data := passwd[..pwlen];
    assert data[..2] == passwd[..2] && data[2..] == passwd[2..pwlen];
    UndoBehind(md5, passwd, pwlen - 2, secret, vector);
    ghost var plain := Unchain(md5, secret, vector + data[..2], data[2..]);
    assert passwd[2..pwlen] == plain && passwd[2] == passwd[2..pwlen][0];
    passwd[pwlen] := 0;
    assert passwd[2..pwlen] == plain;
    if passwd[2] >= pwlen - 2 {
      passwd[2] := 0;
      passwd[3] := 0;
      return 2;
    }
    return SignedChar(passwd[2]);
  }

  /** Encoding and then decoding in the same buffer: the length comes back as min(n, 127) and the
      password starts at offset 3. */
  method EncodeThenDecode(encoder: TunnelEncoder, md5: Hash, passwd: array<byte>, pwlen: nat, secret: seq<byte>,
                          vector: Digest, random0: word, random1: word)
    returns (len: int)
    requires pwlen <= passwd.Length && 131 <= passwd.Length
    modifies encoder, passwd
    ensures len == Min(pwlen, MAX_TUNNEL)
    ensures passwd[3..3 + len] == old(passwd[..len])
  {
    ghost var password, s := passwd[..pwlen], passwd[..];
    CutOf(s, pwlen);
    assert password == s[..pwlen];
    var hidden := encoder.Encode(md5, passwd, pwlen, secret, vector, random0, random1);
    TunnelRoundTrip(md5, secret, vector, passwd[..2], password);
    len := Decode(md5, passwd, hidden, secret, vector);
    SliceOfSlice(passwd[..], 2, hidden, 1, 1 + len);
    assert s[..len] == old(passwd[..len]);
  }

  lemma CutOf(s: seq<byte>, n: nat)
    requires n <= |s|
    ensures Cut(s[..n]) == s[..Min(n, MAX_TUNNEL)]
  {
  }
}
