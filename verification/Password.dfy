/**
 Hiding of User-Password (rad_pwencode, rad_pwdecode) in radius.c.

 The digest is an arbitrary function of its input, so nothing here depends on it being MD5.
 */
module Password {
  import opened Octets

  // ---------------------------------------------------------------- the block chain

  /** Section 5.2 of RFC 2865: c(1) = p(1) xor MD5(S + seed), c(i) = p(i) xor MD5(S + c(i-1)). */
  function Chain(md5: Hash, secret: seq<byte>, seed: seq<byte>, plain: seq<byte>): (r: seq<byte>)
    requires |plain| % 16 == 0
    ensures |r| == |plain|
    decreases |plain|
  {
    if plain == [] then []
    else
      var c := XorSeq(plain[..16], md5(secret + seed));
      c + Chain(md5, secret, c, plain[16..])
  }

  /** The receiver's reading of a chain, whose last block may be short. */
  function Unchain(md5: Hash, secret: seq<byte>, seed: seq<byte>, cipher: seq<byte>): (r: seq<byte>)
    ensures |r| == |cipher|
    decreases |cipher|
  {
    if |cipher| <= 16 then XorSeq(cipher, md5(secret + seed))
    else XorSeq(cipher[..16], md5(secret + seed)) + Unchain(md5, secret, cipher[..16], cipher[16..])
  }

  /** Reading a chain restores the plain text, for every digest function, secret and seed. */
  lemma {:induction false} UnchainOfChain(md5: Hash, secret: seq<byte>, seed: seq<byte>, plain: seq<byte>)
    requires |plain| % 16 == 0
    ensures Unchain(md5, secret, seed, Chain(md5, secret, seed, plain)) == plain
    decreases |plain|
  {
    if plain != [] {
      var d := md5(secret + seed);
      var c := XorSeq(plain[..16], d);
      var rest := Chain(md5, secret, c, plain[16..]);
      XorSeqCancels(plain[..16], d);
      UnchainOfChain(md5, secret, c, plain[16..]);
      assert (c + rest)[..16] == c && (c + rest)[16..] == rest;
      if rest == [] {
        assert c + rest == c && plain[..16] == plain;
      }
    }
  }

  /** The block that feeds the digest for whatever follows `plain`. */
  function LastBlock(md5: Hash, secret: seq<byte>, seed: seq<byte>, plain: seq<byte>): (r: seq<byte>)
    requires |plain| % 16 == 0
  {
    if plain == [] then seed else Chain(md5, secret, seed, plain)[|plain| - 16..]
  }

  lemma {:induction false} ChainSnoc(md5: Hash, secret: seq<byte>, seed: seq<byte>, a: seq<byte>, b: seq<byte>)
    requires |a| % 16 == 0 && |b| == 16
    ensures Chain(md5, secret, seed, a + b)
         == Chain(md5, secret, seed, a) + XorSeq(b, md5(secret + LastBlock(md5, secret, seed, a)))
    decreases |a|
  {
    if a == [] {
      assert a + b == b && b[..16] == b && b[16..] == [];
    } else {
      var c := XorSeq(a[..16], md5(secret + seed));
      var tail := Chain(md5, secret, c, a[16..]);
      var x := XorSeq(b, md5(secret + LastBlock(md5, secret, c, a[16..])));
      assert (a + b)[..16] == a[..16] && (a + b)[16..] == a[16..] + b;
      ChainSnoc(md5, secret, c, a[16..], b);
      LastBlockSkips(md5, secret, seed, a);
      Assoc(c, tail, x);
    }
  }

  lemma LastBlockSkips(md5: Hash, secret: seq<byte>, seed: seq<byte>, a: seq<byte>)
    requires |a| % 16 == 0 && a != []
    ensures LastBlock(md5, secret, seed, a)
         == LastBlock(md5, secret, XorSeq(a[..16], md5(secret + seed)), a[16..])
  {
    var c := XorSeq(a[..16], md5(secret + seed));
    var tail := Chain(md5, secret, c, a[16..]);
    if a[16..] == [] {
      assert (c + tail)[|a| - 16..] == c;
    } else {
      assert (c + tail)[|a| - 16..] == tail[|tail| - 16..];
    }
  }

  // ---------------------------------------------------------------- array steps

  function Xored(s: seq<byte>, at: nat, n: nat, digest: Digest): (r: seq<byte>)
    requires at + n <= |s| && n <= 16
    ensures |r| == |s|
  {
    s[..at] + XorSeq(s[at..at + n], digest) + s[at + n..]
  }

  lemma XoredSlices(s: seq<byte>, at: nat, n: nat, digest: Digest, end: nat)
    requires at + n <= end <= |s| && n <= 16
    ensures Xored(s, at, n, digest)[..at + n] == s[..at] + XorSeq(s[at..at + n], digest)
    ensures Xored(s, at, n, digest)[at..end] == XorSeq(s[at..at + n], digest) + s[at + n..end]
    ensures forall i :: 0 <= i < |s| && !(at <= i < at + n) ==> Xored(s, at, n, digest)[i] == s[i]
  {
  }

  lemma XoredTail(s: seq<byte>, n: nat, digest: Digest, from: nat)
    requires n <= 16 && n <= from <= |s|
    ensures Xored(s, 0, n, digest)[from..] == s[from..]
  {
  }

  lemma XoredOne(s: seq<byte>, at: nat, i: nat, digest: Digest)
    requires at + i < |s| && i < 16
    ensures Xored(s, at, i, digest)[at + i] == s[at + i]
    ensures Xored(s, at, i + 1, digest) == Xored(s, at, i, digest)[at + i := Xor(s[at + i], digest[i])]
  {
    var r, r' := Xored(s, at, i, digest), Xored(s, at, i + 1, digest);
    forall k | 0 <= k < |s| ensures r'[k] == r[at + i := Xor(s[at + i], digest[i])][k] {
      XoredAt(s, at, i, digest, k);
      XoredAt(s, at, i + 1, digest, k);
    }
    XoredAt(s, at, i, digest, at + i);
  }

  lemma XoredAt(s: seq<byte>, at: nat, n: nat, digest: Digest, k: nat)
    requires at + n <= |s| && n <= 16 && k < |s|
    ensures Xored(s, at, n, digest)[k] == if at <= k < at + n then Xor(s[k], digest[k - at]) else s[k]
  {
  }

  /** passwd[at + i] ^= digest[i] for i < n. */
  method XorInto(passwd: array<byte>, at: nat, n: nat, digest: Digest)
    requires at + n <= passwd.Length && n <= 16
    modifies passwd
    ensures passwd[..] == Xored(old(passwd[..]), at, n, digest)
  {
    ghost var s := passwd[..];
    for i := 0 to n
      invariant passwd[..] == Xored(s, at, i, digest)
    {
      XoredOne(s, at, i, digest);
      assert passwd[..][at + i] == passwd[at + i];
      passwd[at + i] := Xor(passwd[at + i], digest[i]);
    }
  }

  /** passwd[from .. to] = 0. */
  method ZeroFill(passwd: array<byte>, from: nat, to: nat)
    requires from <= to <= passwd.Length
    modifies passwd
    ensures passwd[..] == old(passwd[..from]) + Zeros(to - from) + old(passwd[to..])
  {
    for i := from to to
      invariant passwd[..] == old(passwd[..from]) + Zeros(i - from) + old(passwd[i..])
    {
      passwd[i] := 0;
    }
  }

  /** The smallest multiple of 16 that is at least `n`. */
  function RoundUp(n: nat): (r: nat)
    ensures n <= r < n + 16 && r % 16 == 0
  {
    (n + 15) / 16 * 16
  }

  /** Filled up with zeros to whole blocks. */
  function ZeroPad(p: seq<byte>): (r: seq<byte>)
    ensures |r| == RoundUp(|p|)
  {
    p + Zeros(RoundUp(|p|) - |p|)
  }

  /** Octet `i` of block `k` of a chain: the plain octet under the digest of the secret and the seed, or of the
      secret and the block before. */
  lemma {:induction false} ChainOctets(md5: Hash, secret: seq<byte>, seed: seq<byte>, plain: seq<byte>, k: nat, i: nat)
    requires |plain| % 16 == 0 && 16 * k + 16 <= |plain| && i < 16
    ensures var c := Chain(md5, secret, seed, plain);
            c[16 * k + i] == Xor(plain[16 * k + i],
                                 md5(secret + if k == 0 then seed else c[16 * k - 16..16 * k])[i])
    decreases k
  {
    var first := XorSeq(plain[..16], md5(secret + seed));
    var rest := Chain(md5, secret, first, plain[16..]);
    if k == 0 {
      assert (first + rest)[i] == first[i] == Xor(plain[..16][i], md5(secret + seed)[i]);
    } else {
      ChainOctets(md5, secret, first, plain[16..], k - 1, i);
      BlockBehind(first, rest, k);
      assert plain[16..][16 * k - 16 + i] == plain[16 * k + i];
      assert (first + rest)[16 * k + i] == rest[16 * k - 16 + i];
    }
  }

  /** The receiver's octet `j`: the cipher octet under the digest of the secret and the seed, or of the secret and
      the cipher block before, in a short last block too. */
  lemma {:induction false} UnchainOctets(md5: Hash, secret: seq<byte>, seed: seq<byte>, cipher: seq<byte>, k: nat,
                                         i: nat)
    requires 16 * k + i < |cipher| && i < 16
    ensures Unchain(md5, secret, seed, cipher)[16 * k + i]
         == Xor(cipher[16 * k + i], md5(secret + if k == 0 then seed else cipher[16 * k - 16..16 * k])[i])
    decreases k
  {
    if k > 0 {
      UnchainOctets(md5, secret, cipher[..16], cipher[16..], k - 1, i);
      BlockBehind(cipher[..16], cipher[16..], k);
      assert cipher == cipher[..16] + cipher[16..];
      assert cipher[16..][16 * k - 16 + i] == cipher[16 * k + i];
    }
  }

  lemma BlockBehind(first: seq<byte>, rest: seq<byte>, k: nat)
    requires |first| == 16 && 1 <= k && 16 * k <= 16 + |rest|
    ensures (first + rest)[16 * k - 16..16 * k] == if k == 1 then first else rest[16 * k - 32..16 * k - 16]
  {
  }

  // ---------------------------------------------------------------- User-Password

  /** What rad_pwencode leaves in the first octets of its buffer. */
  function Hidden(md5: Hash, secret: seq<byte>, vector: Digest, password: seq<byte>): (r: seq<byte>)
  {
    Chain(md5, secret, vector, ZeroPad(if |password| > 128 then password[..128] else password))
  }

  /** Section 5.2 of RFC 2865 octet by octet: the password, cut to 128 octets and filled up with zeros, each block
      under the digest of the secret and the request authenticator, or of the secret and the block before. */
  lemma HiddenOctets(md5: Hash, secret: seq<byte>, vector: Digest, password: seq<byte>, k: nat, i: nat)
    requires 16 * k < |password| && k < 8 && i < 16
    ensures var h := Hidden(md5, secret, vector, password);
            && 16 * k + 16 <= |h| <= 128
            && h[16 * k + i] == Xor(if 16 * k + i < |password| then password[16 * k + i] else 0,
                                    md5(secret + if k == 0 then vector else h[16 * k - 16..16 * k])[i])
  {
    var cut := if |password| > 128 then password[..128] else password;
    RoundUpBounds(|cut|, k);
    ChainOctets(md5, secret, vector, ZeroPad(cut), k, i);
  }

  lemma RoundUpBounds(n: nat, k: nat)
    requires 16 * k < n <= 128
    ensures 16 * k + 16 <= RoundUp(n) <= 128
  {
  }

  /** The first `n` octets of the buffer are chained and the rest of the plain text is untouched. */
  ghost predicate Chained(md5: Hash, secret: seq<byte>, seed: seq<byte>, plain: seq<byte>, cur: seq<byte>, n: nat)
  {
    && |plain| % 16 == 0 && n % 16 == 0 && n <= |plain| <= |cur|
    && cur[..n] == Chain(md5, secret, seed, plain[..n])
    && (forall i :: n <= i < |plain| ==> cur[i] == plain[i])
  }

  lemma ChainedStep(md5: Hash, secret: seq<byte>, seed: seq<byte>, plain: seq<byte>, cur: seq<byte>, n: nat)
    requires Chained(md5, secret, seed, plain, cur, n) && n + 16 <= |plain|
    ensures var d := md5(secret + if n == 0 then seed else cur[n - 16..n]);
            Chained(md5, secret, seed, plain, Xored(cur, n, 16, d), n + 16)
  {
    var d := md5(secret + if n == 0 then seed else cur[n - 16..n]);
    var next := Xored(cur, n, 16, d);
    ChainedFront(md5, secret, seed, plain, cur, n);
    SameBlock(cur, plain, n);
    XoredSlices(cur, n, 16, d, |cur|);
    assert next[..n + 16] == Chain(md5, secret, seed, plain[..n + 16]);
  }

  /** The chain one block further. */
  lemma ChainedFront(md5: Hash, secret: seq<byte>, seed: seq<byte>, plain: seq<byte>, cur: seq<byte>, n: nat)
    requires n % 16 == 0 && n + 16 <= |plain| && n <= |cur| && cur[..n] == Chain(md5, secret, seed, plain[..n])
    ensures Chain(md5, secret, seed, plain[..n + 16])
         == cur[..n] + XorSeq(plain[n..n + 16], md5(secret + if n == 0 then seed else cur[n - 16..n]))
  {
    var a, b := plain[..n], plain[n..n + 16];
    LastBlockIs(md5, secret, seed, a, cur);
    ChainSnoc(md5, secret, seed, a, b);
    assert a + b == plain[..n + 16];
  }

  lemma LastBlockIs(md5: Hash, secret: seq<byte>, seed: seq<byte>, a: seq<byte>, cur: seq<byte>)
    requires |a| % 16 == 0 && |a| <= |cur| && cur[..|a|] == Chain(md5, secret, seed, a)
    ensures (if |a| == 0 then seed else cur[|a| - 16..|a|]) == LastBlock(md5, secret, seed, a)
  {
    if |a| > 0 {
      assert cur[|a| - 16..|a|] == cur[..|a|][|a| - 16..];
    }
  }

  lemma SameBlock(cur: seq<byte>, plain: seq<byte>, n: nat)
    requires n + 16 <= |plain| <= |cur| && forall i :: n <= i < |plain| ==> cur[i] == plain[i]
    ensures cur[n..n + 16] == plain[n..n + 16]
  {
  }

  /** rad_pwencode.  The extended loop runs one block past the padded length, so up to 16 further
      octets of the buffer are disturbed; nothing beyond them is. */
  method PwEncode(md5: Hash, passwd: array<byte>, pwlen: nat, secret: seq<byte>, vector: Digest)
    returns (newLen: nat)
    requires pwlen <= passwd.Length && 144 <= passwd.Length
    modifies passwd
    ensures newLen == RoundUp(if pwlen > 128 then 128 else pwlen)
    ensures passwd[..newLen] == Hidden(md5, secret, vector, old(passwd[..pwlen]))
    ensures passwd[newLen + 16..] == old(passwd[newLen + 16..])
  {
    var len := if pwlen > 128 then 128 else pwlen;
    ghost var password := passwd[..len];
    assert password == if pwlen > 128 then old(passwd[..pwlen])[..128] else old(passwd[..pwlen]);
    newLen := PadInPlace(passwd, len);
    HideInPlace(md5, passwd, newLen, secret, vector, ZeroPad(password));
  }

  /** The encoding part of rad_pwencode, on a buffer that starts with `plain`. */
  method HideInPlace(md5: Hash, passwd: array<byte>, len: nat, secret: seq<byte>, vector: Digest,
                     ghost plain: seq<byte>)
    requires |plain| == len <= 128 && len % 16 == 0 && 144 <= passwd.Length && passwd[..len] == plain
    modifies passwd
    ensures passwd[..len] == Chain(md5, secret, vector, plain)
    ensures passwd[len + 16..] == old(passwd[len + 16..])
  {
    ghost var s := passwd[..];
    XorInto(passwd, 0, 16, md5(secret + vector));
    XoredTail(s, 16, md5(secret + vector), len + 16);
    assert passwd[len + 16..] == passwd[..][len + 16..];
    if len == 0 {
      assert passwd[..len] == [];
      return;
    }
    assert Chained(md5, secret, vector, plain, s, 0);
    ChainedStep(md5, secret, vector, plain, s, 0);
    if len <= 16 {
      assert plain[..16] == plain && passwd[..16] == passwd[..][..16];
    } else {
      ExtendChain(md5, passwd, len, secret, vector, plain);
    }
  }

  /** The padding loop of rad_pwencode. */
  method PadInPlace(passwd: array<byte>, len: nat) returns (newLen: nat)
    requires RoundUp(len) <= passwd.Length
    modifies passwd
    ensures newLen == RoundUp(len)
    ensures passwd[..] == ZeroPad(old(passwd[..len])) + old(passwd[newLen..])
  {
    ghost var s := passwd[..];
    RoundUpIs(len);
    newLen := len;
    if len % 16 != 0 {
      newLen := len + 16 - len % 16;
      ZeroFill(passwd, len, newLen);
    } else {
      assert s == s[..len] + Zeros(0) + s[len..];
    }
    assert s[..len] == old(passwd[..len]) && s[newLen..] == old(passwd[newLen..]);
  }

  lemma RoundUpIs(n: nat)
    ensures RoundUp(n) == if n % 16 == 0 then n else n + 16 - n % 16
  {
  }

  /** The loop of rad_pwencode over the second and later blocks. */
  method ExtendChain(md5: Hash, passwd: array<byte>, len: nat, secret: seq<byte>, ghost seed: seq<byte>,
                     ghost plain: seq<byte>)
    requires 16 < len <= 128 && len + 16 <= passwd.Length && |plain| == len
    requires Chained(md5, secret, seed, plain, passwd[..], 16)
    modifies passwd
    ensures passwd[..len] == Chain(md5, secret, seed, plain)
    ensures passwd[len + 16..] == old(passwd[len + 16..])
  {
    var n := 0;
    while n < 128 && n <= len - 16
      invariant 0 <= n <= len && n % 16 == 0
      invariant n < len ==> Chained(md5, secret, seed, plain, passwd[..], n + 16)
      invariant n == len ==> passwd[..len] == Chain(md5, secret, seed, plain)
      invariant passwd[len + 16..] == old(passwd[len + 16..])
      decreases len - n
    {
      if n + 32 <= len {
        ChainedStep(md5, secret, seed, plain, passwd[..], n + 16);
        assert passwd[..][n..n + 16] == passwd[n..n + 16];
      } else {
        assert plain[..len] == plain;
      }
      XorInto(passwd, n + 16, 16, md5(secret + passwd[n..n + 16]));
      n := n + 16;
    }
  }

  // ---------------------------------------------------------------- reading a chain in place

  function SeedAt(seed: seq<byte>, cipher: seq<byte>, n: nat): (r: seq<byte>)
    requires n == 0 || 16 <= n <= |cipher|
  {
    if n == 0 then seed else cipher[n - 16..n]
  }

  /** Working from the last block down: behind `lo` the buffer is plain, between `from` and `lo` it
      is still the cipher text. */
  ghost predicate Unchained(md5: Hash, secret: seq<byte>, seed: seq<byte>, cipher: seq<byte>,
                            cur: seq<byte>, from: nat, lo: nat)
  {
    && from <= lo <= |cipher| <= |cur| && (lo == 0 || 16 <= lo || lo == |cipher|)
    && (forall i :: from <= i < lo ==> cur[i] == cipher[i])
    && (lo < |cipher| ==> cur[lo..|cipher|] == Unchain(md5, secret, SeedAt(seed, cipher, lo), cipher[lo..]))
  }

  /** The block in front of one that is still cipher text. */
  lemma StillCipher(md5: Hash, secret: seq<byte>, seed: seq<byte>, cipher: seq<byte>,
                    cur: seq<byte>, from: nat, lo: nat, n: nat)
    requires Unchained(md5, secret, seed, cipher, cur, from, lo) && from + 16 <= n <= lo
    ensures cur[n - 16..n] == cipher[n - 16..n]
  {
  }

  lemma UnchainedStep(md5: Hash, secret: seq<byte>, seed: seq<byte>, cipher: seq<byte>,
                      cur: seq<byte>, from: nat, n: nat)
    requires (n == 0 || 16 <= n) && from <= n < |cipher|
    requires Unchained(md5, secret, seed, cipher, cur, from, Min(n + 16, |cipher|))
    ensures var d := md5(secret + SeedAt(seed, cipher, n));
            Unchained(md5, secret, seed, cipher, Xored(cur, n, Min(16, |cipher| - n), d), from, n)
  {
    if n + 16 < |cipher| {
      StepInside(md5, secret, seed, cipher, cur, from, n);
    } else {
      StepAtEnd(md5, secret, seed, cipher, cur, from, n);
    }
  }

  lemma StepInside(md5: Hash, secret: seq<byte>, seed: seq<byte>, cipher: seq<byte>, cur: seq<byte>, from: nat, n: nat)
    requires (n == 0 || 16 <= n) && from <= n && n + 16 < |cipher|
    requires Unchained(md5, secret, seed, cipher, cur, from, n + 16)
    ensures Unchained(md5, secret, seed, cipher, Xored(cur, n, 16, md5(secret + SeedAt(seed, cipher, n))), from, n)
  {
    var feed := SeedAt(seed, cipher, n);
    XoredSlices(cur, n, 16, md5(secret + feed), |cipher|);
    assert cur[n..n + 16] == cipher[n..n + 16];
    UnchainFirst(md5, secret, feed, cipher, n);
  }

  lemma StepAtEnd(md5: Hash, secret: seq<byte>, seed: seq<byte>, cipher: seq<byte>, cur: seq<byte>, from: nat, n: nat)
    requires (n == 0 || 16 <= n) && from <= n < |cipher| <= n + 16
    requires Unchained(md5, secret, seed, cipher, cur, from, |cipher|)
    ensures Unchained(md5, secret, seed, cipher, Xored(cur, n, |cipher| - n, md5(secret + SeedAt(seed, cipher, n))),
                      from, n)
  {
    var feed, m := SeedAt(seed, cipher, n), |cipher| - n;
    XoredSlices(cur, n, m, md5(secret + feed), |cipher|);
    assert cur[n..n + m] == cipher[n..|cipher|] && cur[n + m..|cipher|] == [];
    UnchainLast(md5, secret, feed, cipher, n);
    assert XorSeq(cipher[n..|cipher|], md5(secret + feed)) + [] == XorSeq(cipher[n..|cipher|], md5(secret + feed));
  }

  lemma UnchainFirst(md5: Hash, secret: seq<byte>, feed: seq<byte>, cipher: seq<byte>, n: nat)
    requires n + 16 < |cipher|
    ensures Unchain(md5, secret, feed, cipher[n..]) ==
            XorSeq(cipher[n..n + 16], md5(secret + feed)) + Unchain(md5, secret, cipher[n..n + 16], cipher[n + 16..])
  {
    assert cipher[n..][..16] == cipher[n..n + 16] && cipher[n..][16..] == cipher[n + 16..];
  }

  lemma UnchainLast(md5: Hash, secret: seq<byte>, feed: seq<byte>, cipher: seq<byte>, n: nat)
    requires n < |cipher| <= n + 16
    ensures Unchain(md5, secret, feed, cipher[n..]) == XorSeq(cipher[n..|cipher|], md5(secret + feed))
  {
    assert cipher[n..] == cipher[n..|cipher|];
  }

  /** rad_pwdecode.  The blocks are undone from the last to the second; the first block, undone
      before them, is kept aside because the second block needs its cipher text. */
  method PwDecode(md5: Hash, passwd: array<byte>, pwlen: nat, secret: seq<byte>, vector: Digest)
    requires 18 <= passwd.Length && pwlen < passwd.Length
    modifies passwd
    ensures passwd[..pwlen] == Unchain(md5, secret, vector, old(passwd[..pwlen]))
    ensures passwd[if pwlen <= 16 then pwlen + 1 else pwlen] == 0
  {
    ghost var cipher := passwd[..pwlen];
    var r := passwd[..16];
    var d := md5(secret + vector);
    XorInto(passwd, 0, Min(16, pwlen), d);
    if pwlen <= 16 {
      passwd[pwlen + 1] := 0;
    } else {
      assert passwd[..16] == XorSeq(cipher[..16], d);
      UndoBlocks(md5, passwd, pwlen, secret, r, cipher);
      assert passwd[..pwlen] == passwd[..16] + passwd[16..pwlen];
      passwd[pwlen] := 0;
    }
  }

  /** The loop of rad_pwdecode. */
  method UndoBlocks(md5: Hash, passwd: array<byte>, pwlen: nat, secret: seq<byte>, r: seq<byte>,
                    ghost cipher: seq<byte>)
    requires 16 < pwlen < passwd.Length && |cipher| == pwlen && r == cipher[..16]
    requires forall i :: 16 <= i < pwlen ==> passwd[i] == cipher[i]
    modifies passwd
    ensures passwd[..16] == old(passwd[..16])
    ensures passwd[16..pwlen] == Unchain(md5, secret, r, cipher[16..])
  {
    ghost var k := (pwlen - 1) / 16;
    var n := (pwlen - 1) / 16 * 16;
    LastBlockAt(pwlen);
    ghost var before := passwd[..16];
    while n > 0
      invariant 0 <= n < pwlen && n == 16 * k
      invariant Unchained(md5, secret, [], cipher, passwd[..], 16, Min(n + 16, pwlen))
      invariant passwd[..16] == before
      decreases n
    {
      UndoBlock(md5, passwd, pwlen, secret, r, n, cipher);
      n, k := n - 16, k - 1;
    }
    AllUnchained(md5, secret, cipher, passwd[..]);
    assert passwd[..][16..pwlen] == passwd[16..pwlen];
  }

  lemma LastBlockAt(pwlen: nat)
    requires 16 < pwlen
    ensures var n := (pwlen - 1) / 16 * 16; 16 <= n < pwlen <= n + 16
  {
  }

  lemma AllUnchained(md5: Hash, secret: seq<byte>, cipher: seq<byte>, cur: seq<byte>)
    requires 16 < |cipher| && Unchained(md5, secret, [], cipher, cur, 16, 16)
    ensures cur[16..|cipher|] == Unchain(md5, secret, cipher[..16], cipher[16..])
  {
    assert SeedAt([], cipher, 16) == cipher[..16];
  }

  method UndoBlock(md5: Hash, passwd: array<byte>, pwlen: nat, secret: seq<byte>, r: seq<byte>, n: nat,
                   ghost cipher: seq<byte>)
    requires (n == 16 || 32 <= n) && n < pwlen < passwd.Length && |cipher| == pwlen && r == cipher[..16]
    requires Unchained(md5, secret, [], cipher, passwd[..], 16, Min(n + 16, pwlen))
    modifies passwd
    ensures passwd[..16] == old(passwd[..16])
    ensures Unchained(md5, secret, [], cipher, passwd[..], 16, n)
  {
    ghost var cur := passwd[..];
    var s := if n == 16 then r else passwd[n - 16..n];
    if n > 16 {
      StillCipher(md5, secret, [], cipher, cur, 16, Min(n + 16, pwlen), n);
    }
    UnchainedStep(md5, secret, [], cipher, cur, 16, n);
    XorInto(passwd, n, Min(16, pwlen - n), md5(secret + s));
    assert passwd[..16] == passwd[..][..16] == cur[..16];
  }

  /** Hiding and then reading a password restores it, cut to 128 octets and filled up with zeros. */
  lemma HiddenRestores(md5: Hash, secret: seq<byte>, vector: Digest, password: seq<byte>)
    ensures Unchain(md5, secret, vector, Hidden(md5, secret, vector, password))
         == ZeroPad(if |password| > 128 then password[..128] else password)
  {
    UnchainOfChain(md5, secret, vector, ZeroPad(if |password| > 128 then password[..128] else password));
  }

  /** rad_decode cuts the decoded User-Password at the first zero.  What it finds is the password
      that was hidden exactly when that had at most 128 octets and no zero among them. */
  lemma PasswordRoundTrip(md5: Hash, secret: seq<byte>, vector: Digest, password: seq<byte>)
    ensures var out := Unchain(md5, secret, vector, Hidden(md5, secret, vector, password));
            out[..StrLen(out)] == password <==> |password| <= 128 && 0 !in password
  {
    HiddenRestores(md5, secret, vector, password);
    var out := Unchain(md5, secret, vector, Hidden(md5, secret, vector, password));
    var n := StrLen(out);
    if |password| <= 128 && 0 !in password {
      assert forall i :: 0 <= i < |password| ==> out[i] == password[i] && out[i] != 0;
      assert n >= |password|;
      assert forall i :: 0 <= i < n ==> out[i] in out[..n] && out[i] != 0;
      assert |password| < |out| ==> out[|password|] == 0;
      assert n <= |password|;
    }
  }
}
