/**
 Octets, machine words and the bitwise operators the C sources apply to them.

 An octet is an integer between 0 and 255 and a word an integer below 2^32; wrap-around is
 written out with `%` wherever the sources rely on it.  The bitwise operators are defined bit
 by bit, least significant bit first.
 */
module Octets {

  datatype Option<+T> = None | Some(value: T)

  type byte = x: int | 0 <= x < 256

  const WORD := 0x1_0000_0000

  type word = x: int | 0 <= x < 0x1_0000_0000

  /** A 16-octet authenticator or message digest. */
  type Digest = s: seq<byte> | |s| == 16 witness [0, 0, 0, 0, 0, 0, 0, 0, 0, 0, 0, 0, 0, 0, 0, 0]

  /** A digest function. */
  type Hash = seq<byte> -> Digest

  function Zeros(n: nat): (r: seq<byte>)
    ensures |r| == n
    ensures forall i :: 0 <= i < n ==> r[i] == 0
  {
    seq(n, _ => 0)
  }

  function Min(a: int, b: int): (r: int)
  {
    if a < b then a else b
  }

  /** The length strlen finds: the octets before the first zero. */
  function StrLen(s: seq<byte>): (n: nat)
    ensures n <= |s| && 0 !in s[..n] && (n < |s| ==> s[n] == 0)
  {
    if s == [] || s[0] == 0 then 0 else
      var n := StrLen(s[1..]);
      assert s[..n + 1] == [s[0]] + s[1..][..n];
      1 + n
  }

  /** The value of a 32-bit word read as a signed integer. */
  function SignedWord(w: word): (x: int)
    ensures -0x8000_0000 <= x < 0x8000_0000
  {
    if w < 0x8000_0000 then w else w - WORD
  }

  // ---------------------------------------------------------------- exclusive or

  function XorNat(a: nat, b: nat): (r: nat)
  {
    if a == 0 && b == 0 then 0
    else (if a % 2 == b % 2 then 0 else 1) + 2 * XorNat(a / 2, b / 2)
  }

  lemma {:induction false} XorNatBound(a: nat, b: nat, m: nat)
    requires a < Pow2(m) && b < Pow2(m)
    ensures XorNat(a, b) < Pow2(m)
    decreases m
  {
    if m > 0 && (a != 0 || b != 0) {
      XorNatBound(a / 2, b / 2, m - 1);
    }
  }

  function Pow2(m: nat): (r: nat)
    ensures r >= 1
  {
    if m == 0 then 1 else 2 * Pow2(m - 1)
  }

  lemma {:induction false} XorNatCancels(a: nat, b: nat)
    ensures XorNat(XorNat(a, b), b) == a
    decreases a + b
  {
    if a != 0 || b != 0 {
      XorNatCancels(a / 2, b / 2);
      var x := XorNat(a, b);
      assert x / 2 == XorNat(a / 2, b / 2);
      if x == 0 && b == 0 {
        XorNatZero(a);
      }
    }
  }

  lemma {:induction false} XorNatZero(a: nat)
    ensures XorNat(a, 0) == a
    decreases a
  {
    if a != 0 {
      XorNatZero(a / 2);
    }
  }

  function Xor(a: byte, b: byte): (r: byte)
  {
    assert Pow2(8) == 256;
    XorNatBound(a, b, 8);
    XorNat(a, b)
  }

  /** Applying the same octet twice restores the original. */
  lemma XorCancels(a: byte, b: byte)
    ensures Xor(Xor(a, b), b) == a
  {
    XorNatCancels(a, b);
  }

  lemma {:induction false} XorNatCommutes(a: nat, b: nat)
    ensures XorNat(a, b) == XorNat(b, a)
    decreases a + b
  {
    if a != 0 || b != 0 {
      XorNatCommutes(a / 2, b / 2);
    }
  }

  lemma XorCommutes(a: byte, b: byte)
    ensures Xor(a, b) == Xor(b, a)
  {
    XorNatCommutes(a, b);
  }

  /** Bit `k`, counted from the least significant. */
  function Bit(a: nat, k: nat): (b: nat)
    ensures b < 2
  {
    if k == 0 then a % 2 else Bit(a / 2, k - 1)
  }

  lemma {:induction false} XorNatBit(a: nat, b: nat, k: nat)
    ensures Bit(XorNat(a, b), k) == (Bit(a, k) + Bit(b, k)) % 2
    decreases k
  {
    if a == 0 && b == 0 {
      ZeroBit(k);
    } else {
      assert XorNat(a, b) / 2 == XorNat(a / 2, b / 2);
      if k > 0 {
        XorNatBit(a / 2, b / 2, k - 1);
      }
    }
  }

  lemma {:induction false} ZeroBit(k: nat)
    ensures Bit(0, k) == 0
  {
    if k > 0 {
      ZeroBit(k - 1);
    }
  }

  /** Every bit of the exclusive or is the sum of the two bits modulo two. */
  lemma XorBit(a: byte, b: byte, k: nat)
    ensures Bit(Xor(a, b), k) == (Bit(a, k) + Bit(b, k)) % 2
  {
    XorNatBit(a, b, k);
  }

  /** Octetwise exclusive or of `a` with the first |a| octets of `pad`. */
  function XorSeq(a: seq<byte>, pad: seq<byte>): (r: seq<byte>)
    requires |a| <= |pad|
    ensures |r| == |a|
    ensures forall i :: 0 <= i < |a| ==> r[i] == Xor(a[i], pad[i])
  {
    seq(|a|, i requires 0 <= i < |a| => Xor(a[i], pad[i]))
  }

  lemma XorSeqCancels(a: seq<byte>, pad: seq<byte>)
    requires |a| <= |pad|
    ensures XorSeq(XorSeq(a, pad), pad) == a
  {
    forall i | 0 <= i < |a|
      ensures XorSeq(XorSeq(a, pad), pad)[i] == a[i]
    {
      XorCancels(a[i], pad[i]);
    }
  }

  // ---------------------------------------------------------------- inclusive or

  function OrNat(a: nat, b: nat): (r: nat)
    decreases a + b
  {
    if a == 0 && b == 0 then 0
    else (if a % 2 == 0 && b % 2 == 0 then 0 else 1) + 2 * OrNat(a / 2, b / 2)
  }

  /** Every bit of the inclusive or is set where one of the two is. */
  lemma {:induction false} OrNatBit(a: nat, b: nat, k: nat)
    ensures Bit(OrNat(a, b), k) == if Bit(a, k) == 1 || Bit(b, k) == 1 then 1 else 0
    decreases k
  {
    if a == 0 && b == 0 {
      ZeroBit(k);
    } else {
      assert OrNat(a, b) / 2 == OrNat(a / 2, b / 2);
      if k > 0 {
        OrNatBit(a / 2, b / 2, k - 1);
      }
    }
  }

  /** An inclusive or keeps every bit of both operands, so it is at least as large as either,
      and it needs no more bits than they do. */
  lemma {:induction false} OrNatBounds(a: nat, b: nat, m: nat)
    requires a < Pow2(m) && b < Pow2(m)
    ensures a <= OrNat(a, b) < Pow2(m)
    ensures b <= OrNat(a, b)
    decreases m
  {
    if m > 0 && (a != 0 || b != 0) {
      OrNatBounds(a / 2, b / 2, m - 1);
    }
  }

  // ---------------------------------------------------------------- byte order

  /** The value of two octets in network byte order. */
  function FromBe16(s: seq<byte>): (v: nat)
    requires |s| == 2
    ensures v < 0x1_0000
  {
    s[0] as int * 256 + s[1] as int
  }

  function ToBe16(v: nat): (s: seq<byte>)
    requires v < 0x1_0000
    ensures |s| == 2
    ensures FromBe16(s) == v
  {
    [v / 256, v % 256]
  }

  /** The value of four octets in network byte order. */
  function FromBe32(s: seq<byte>): (v: word)
    requires |s| == 4
  {
    FromBe16(s[..2]) * 0x1_0000 + FromBe16(s[2..])
  }

  function ToBe32(v: word): (s: seq<byte>)
    ensures |s| == 4
    ensures FromBe32(s) == v
  {
    var hi, lo := ToBe16(v / 0x1_0000), ToBe16(v % 0x1_0000);
    assert (hi + lo)[..2] == hi && (hi + lo)[2..] == lo;
    hi + lo
  }

  /** `s` comes before `t` in the order of their octets, first octet first. */
  predicate Before(s: seq<byte>, t: seq<byte>)
  {
    && s != [] && t != []
    && (s[0] < t[0] || (s[0] == t[0] && Before(s[1..], t[1..])))
  }

  lemma Before2(s: seq<byte>, t: seq<byte>)
    requires |s| == |t| == 2
    ensures Before(s, t) <==> s[0] < t[0] || (s[0] == t[0] && s[1] < t[1])
  {
    assert s[1..] == [s[1]] && t[1..] == [t[1]];
    assert !Before([s[1]][1..], [t[1]][1..]);
    assert Before([s[1]], [t[1]]) <==> s[1] < t[1];
  }

  /** Network byte order: octets are in the order of the numbers. */
  lemma Be16Order(a: nat, b: nat)
    requires a < 0x1_0000 && b < 0x1_0000
    ensures Before(ToBe16(a), ToBe16(b)) <==> a < b
  {
    Before2(ToBe16(a), ToBe16(b));
  }

  lemma BeforeCons(b: byte, s: seq<byte>, c: byte, t: seq<byte>)
    ensures Before([b] + s, [c] + t) <==> b < c || (b == c && Before(s, t))
  {
    assert ([b] + s)[1..] == s && ([c] + t)[1..] == t;
  }

  lemma BeforeSplit(s: seq<byte>, s': seq<byte>, t: seq<byte>, t': seq<byte>)
    requires |s| == |t| == 2
    ensures Before(s + s', t + t') <==> Before(s, t) || (s == t && Before(s', t'))
  {
    Before2(s, t);
    BeforeCons(s[1], s', t[1], t');
    BeforeCons(s[0], [s[1]] + s', t[0], [t[1]] + t');
    assert s + s' == [s[0]] + ([s[1]] + s') && t + t' == [t[0]] + ([t[1]] + t');
  }

  lemma Be32Order(a: word, b: word)
    ensures Before(ToBe32(a), ToBe32(b)) <==> a < b
  {
    var ah, al, bh, bl := a / 0x1_0000, a % 0x1_0000, b / 0x1_0000, b % 0x1_0000;
    BeforeSplit(ToBe16(ah), ToBe16(al), ToBe16(bh), ToBe16(bl));
    Be16Order(ah, bh);
    Be16Order(al, bl);
    assert ToBe16(ah) == ToBe16(bh) ==> FromBe16(ToBe16(ah)) == FromBe16(ToBe16(bh));
  }

  // ---------------------------------------------------------------- overwriting a stretch of octets

  /** `d` with the octets from `at` on replaced by `s`. */
  function Splice(d: seq<byte>, at: nat, s: seq<byte>): (r: seq<byte>)
    requires at + |s| <= |d|
    ensures |r| == |d|
  {
    d[..at] + s + d[at + |s|..]
  }

  lemma SpliceTwice(d: seq<byte>, at: nat, a: seq<byte>, b: seq<byte>)
    requires at + |a| + |b| <= |d|
    ensures Splice(Splice(d, at, a), at + |a|, b) == Splice(d, at, a + b)
  {
    var e := Splice(d, at, a);
    assert e[..at + |a|] == d[..at] + a;
    assert e[at + |a| + |b|..] == d[at + |a| + |b|..];
  }

  lemma SpliceOver(d: seq<byte>, at: nat, a: seq<byte>, i: nat, b: byte)
    requires at + |a| <= |d| && i < |a|
    ensures Splice(d, at, a)[at + i := b] == Splice(d, at, a[i := b])
  {
  }

  lemma SpliceCommutes(d: seq<byte>, i: nat, a: seq<byte>, j: nat, b: seq<byte>)
    requires i + |a| <= j && j + |b| <= |d|
    ensures Splice(Splice(d, i, a), j, b) == Splice(Splice(d, j, b), i, a)
  {
    var x, y := Splice(Splice(d, i, a), j, b), Splice(Splice(d, j, b), i, a);
    forall k | 0 <= k < |d| ensures x[k] == y[k] {
    }
  }

  lemma SpliceAgain(d: seq<byte>, i: nat, a: seq<byte>, b: seq<byte>)
    requires i + |a| <= |d| && |a| == |b|
    ensures Splice(Splice(d, i, a), i, b) == Splice(d, i, b)
  {
  }

  lemma SpliceBack(d: seq<byte>, i: nat, n: nat)
    requires i + n <= |d|
    ensures Splice(d, i, d[i..i + n]) == d
  {
  }

  lemma SpliceSlices(d: seq<byte>, i: nat, a: seq<byte>, lo: nat, hi: nat)
    requires i + |a| <= |d| && lo <= hi <= |d| && (hi <= i || i + |a| <= lo)
    ensures Splice(d, i, a)[i..i + |a|] == a
    ensures Splice(d, i, a)[lo..hi] == d[lo..hi]
  {
  }

  lemma SpliceBehind(a: seq<byte>, b: seq<byte>, at: nat, s: seq<byte>)
    requires at + |s| <= |b|
    ensures a + Splice(b, at, s) == Splice(a + b, |a| + at, s)
  {
  }

  lemma SpliceValue(a: seq<byte>, b: seq<byte>, c: seq<byte>, b': seq<byte>)
    requires |b| == |b'|
    ensures a + b' + c == Splice(a + b + c, |a|, b')
  {
  }

  // ---------------------------------------------------------------- regrouping concatenations

  lemma SliceOfSlice<T>(s: seq<T>, a: nat, b: nat, c: nat, d: nat)
    requires a <= b <= |s| && c <= d <= b - a
    ensures s[a..b][c..d] == s[a + c..a + d]
  {
    var x, y := s[a..b][c..d], s[a + c..a + d];
    forall i | 0 <= i < |x| ensures x[i] == y[i] {
      assert x[i] == s[a..b][c + i] == s[a + (c + i)];
    }
  }

  lemma Assoc<T>(a: seq<T>, b: seq<T>, c: seq<T>)
    ensures a + b + c == a + (b + c)
  {
  }

  lemma Regroup<T>(a: seq<T>, b: seq<T>, c: seq<T>, d: seq<T>)
    ensures a + (b + c) + d == (a + b) + c + d
    ensures a + b + (c + d) == (a + b) + c + d
    ensures b == [] ==> a + b == a && b + c == c
    ensures c == [] ==> b + c == b
  {
  }
}
