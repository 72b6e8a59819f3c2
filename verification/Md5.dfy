/**
 The MD5 message digest as a stream (md5.c), with the 64-octet compression step left abstract.

 `DigestOf` is the one-shot definition of section 3 of RFC 1321: pad, append the length, fold the
 compression step over the blocks.  `Context` is the buffered, chunk-at-a-time machine.
 */
module Md5 {
  import opened Octets

  /** The four chaining words A, B, C, D. */
  type State = s: seq<word> | |s| == 4 witness [0, 0, 0, 0]

  type Block = s: seq<byte> | |s| == 64 witness Zeros(64)

  /** What MD5Transform does to the chaining words, for an arbitrary such function. */
  type Compress = (State, Block) -> State

  const LONG := 0x1_0000_0000_0000_0000

  const INITIAL: State := [0x67452301, 0xefcdab89, 0x98badcfe, 0x10325476]

  // ---------------------------------------------------------------- the definition

  function Fold(f: Compress, st: State, blocks: seq<byte>): (r: State)
    requires |blocks| % 64 == 0
    decreases |blocks|
  {
    if blocks == [] then st else Fold(f, f(st, blocks[..64]), blocks[64..])
  }

  function LittleEndian(w: word): (s: seq<byte>)
    ensures |s| == 4
  {
    [w % 256, w / 256 % 256, w / 256 / 256 % 256, w / 256 / 256 / 256]
  }

  lemma PaddedLength(n: nat)
    ensures 0 <= (55 - n) % 64 < 64 && (n + 9 + (55 - n) % 64) % 64 == 0
  {
    var q, r := (55 - n) / 64, (55 - n) % 64;
    assert n + 9 + r == 64 * (1 - q);
  }

  /** Sections 3.1 and 3.2: a one bit, zero bits up to 448 mod 512, and the bit count mod 2^64. */
  function Padded(m: seq<byte>): (p: seq<byte>)
    ensures |p| % 64 == 0
    ensures |m| + 9 <= |p| <= |m| + 72
  {
    var bits := 8 * |m|;
    PaddedLength(|m|);
    m + [0x80] + Zeros((55 - |m|) % 64) + Encode([bits % WORD, bits / WORD % WORD])
  }

  /** Words as octets, each word least significant octet first. */
  function Encode(words: seq<word>): (s: seq<byte>)
    ensures |s| == 4 * |words|
  {
    if words == [] then []
    else Encode(words[..|words| - 1]) + LittleEndian(words[|words| - 1])
  }

  /** Four octets, least significant first, as a number. */
  function Spelt(s: seq<byte>, at: nat): (v: int)
    requires at + 4 <= |s|
  {
    s[at] as int + 0x100 * s[at + 1] as int + 0x1_0000 * s[at + 2] as int + 0x100_0000 * s[at + 3] as int
  }

  lemma WordSpelt(w: word)
    ensures Spelt(LittleEndian(w), 0) == w
  {
    assert w == 256 * (w / 256) + w % 256;
    assert w / 256 == 256 * (w / 256 / 256) + w / 256 % 256;
    assert w / 256 / 256 == 256 * (w / 256 / 256 / 256) + w / 256 / 256 % 256;
  }

  /** Every word is spelt out in its place. */
  lemma {:induction false} EncodeSpells(words: seq<word>, i: nat)
    requires i < |words|
    ensures Spelt(Encode(words), 4 * i) == words[i]
    decreases |words|
  {
    var init, w := words[..|words| - 1], words[|words| - 1];
    if i < |init| {
      EncodeSpells(init, i);
    } else {
      WordSpelt(w);
    }
  }

  /** Section 3.3 of RFC 1321: the words begin as the octets 01 23 45 67 89 ab cd ef and back. */
  lemma InitialOctets()
    ensures Encode(INITIAL) == [0x01, 0x23, 0x45, 0x67, 0x89, 0xab, 0xcd, 0xef,
                                0xfe, 0xdc, 0xba, 0x98, 0x76, 0x54, 0x32, 0x10]
  {
    EncodeFour(INITIAL);
  }

  lemma EncodeFour(s: State)
    ensures Encode(s) == LittleEndian(s[0]) + LittleEndian(s[1]) + LittleEndian(s[2]) + LittleEndian(s[3])
  {
    assert s[..3][..2] == s[..2] && s[..2][..1] == s[..1] && s[..1][..0] == [];
    assert Encode(s[..1]) == LittleEndian(s[0]);
    assert Encode(s[..2]) == Encode(s[..1]) + LittleEndian(s[1]);
    assert Encode(s[..3]) == Encode(s[..2]) + LittleEndian(s[2]);
  }

  /** The padded message, octet by octet: the message, 80, zeros, and the bit count modulo 2^64 in the last
      eight octets, least significant first, in the fewest whole blocks. */
  lemma PaddedOctets(m: seq<byte>)
    ensures var p := Padded(m);
            && |p| % 64 == 0 && |m| + 9 <= |p| < |m| + 9 + 64
            && p[..|m|] == m && p[|m|] == 0x80
            && (forall i :: |m| < i < |p| - 8 ==> p[i] == 0)
            && Spelt(p, |p| - 8) + WORD * Spelt(p, |p| - 4) == 8 * |m| % LONG
  {
    var bits := 8 * |m|;
    var lo, hi := bits % WORD, bits / WORD % WORD;
    PaddedLength(|m|);
    var p := Padded(m);
    var front, tail := m + [0x80] + Zeros((55 - |m|) % 64), Encode([lo, hi]);
    assert p == front + tail && |front| == |p| - 8;
    EncodeSpells([lo, hi], 0);
    EncodeSpells([lo, hi], 1);
    assert Spelt(p, |front|) == Spelt(tail, 0) && Spelt(p, |front| + 4) == Spelt(tail, 4);
    CountSplits(bits);
  }

  lemma CountSplits(bits: nat)
    ensures bits % WORD + WORD * (bits / WORD % WORD) == bits % LONG
  {
    var q := bits / WORD;
    assert bits == bits % WORD + WORD * (q % WORD) + q / WORD * LONG;
    ModUnique(bits, bits % WORD + WORD * (q % WORD), q / WORD, LONG);
  }

  function DigestOf(f: Compress, m: seq<byte>): (d: Digest)
  {
    Encode(Fold(f, INITIAL, Padded(m)))
  }

  // ---------------------------------------------------------------- facts about folding

  lemma {:induction false} FoldConcat(f: Compress, st: State, a: seq<byte>, b: seq<byte>)
    requires |a| % 64 == 0 && |b| % 64 == 0
    ensures Fold(f, st, a + b) == Fold(f, Fold(f, st, a), b)
    decreases |a|
  {
    if a == [] {
      assert a + b == b;
    } else {
      assert (a + b)[..64] == a[..64];
      assert (a + b)[64..] == a[64..] + b;
      FoldConcat(f, f(st, a[..64]), a[64..], b);
    }
  }

  lemma FoldSnoc(f: Compress, st: State, a: seq<byte>, b: Block)
    requires |a| % 64 == 0
    ensures Fold(f, st, a + b) == f(Fold(f, st, a), b)
  {
    FoldConcat(f, st, a, b);
    assert b[..64] == b && b[64..] == [];
  }

  /** How many octets of `m` fill whole blocks. */
  function Whole(m: seq<byte>): (n: nat)
    ensures n <= |m| < n + 64 && n % 64 == 0
  {
    |m| / 64 * 64
  }

  lemma WholeIs(m: seq<byte>, n: nat)
    requires n % 64 == 0 && n <= |m| < n + 64
    ensures Whole(m) == n
  {
  }

  /** `st` is the chaining value after the first `n` octets of `m`. */
  ghost predicate Absorbed(f: Compress, st: State, m: seq<byte>, n: nat)
  {
    n <= |m| && n % 64 == 0 && st == Fold(f, INITIAL, m[..n])
  }

  lemma AbsorbBlock(f: Compress, st: State, m: seq<byte>, n: nat, block: Block)
    requires Absorbed(f, st, m, n) && n + 64 <= |m| && block == m[n..n + 64]
    ensures Absorbed(f, f(st, block), m, n + 64)
  {
    assert m[..n + 64] == m[..n] + block;
    FoldSnoc(f, INITIAL, m[..n], block);
  }

  lemma AbsorbMore(f: Compress, st: State, m: seq<byte>, more: seq<byte>, n: nat)
    requires Absorbed(f, st, m, n)
    ensures Absorbed(f, st, m + more, n)
  {
    assert (m + more)[..n] == m[..n];
  }

  // ---------------------------------------------------------------- counting bits in two words

  lemma ModUnique(x: int, r: int, k: int, m: int)
    requires 0 <= r < m && x == r + k * m
    ensures x % m == r
  {
    assert x / m == k by {
      if x / m < k { MulMono(x / m + 1, k, m); }
      if x / m > k { MulMono(k + 1, x / m, m); }
    }
  }

  lemma MulMono(a: int, b: int, m: int)
    requires a <= b && 0 <= m
    ensures a * m <= b * m
  {
  }

  /** The low and high count words after adding `n` octets, with the carry test of MD5Update. */
  function AddBits(count: seq<word>, n: word): (r: seq<word>)
    requires |count| == 2
    ensures |r| == 2
  {
    var shifted := n * 8 % WORD;
    var low := (count[0] as int + shifted) % WORD;
    var carried := if low < shifted then (count[1] as int + 1) % WORD else count[1];
    [low, (carried + n / 0x2000_0000) % WORD]
  }

  ghost predicate Counts(count: seq<word>, octets: nat)
  {
    |count| == 2 && count[0] as int + WORD * count[1] as int == 8 * octets % LONG
  }

  lemma AddBitsCarry(count: seq<word>, n: word) returns (k: int)
    requires |count| == 2
    ensures count[0] as int + WORD * count[1] as int + 8 * n
         == AddBits(count, n)[0] as int + WORD * AddBits(count, n)[1] as int + k * LONG
  {
    var shifted, q := n * 8 % WORD, n / 0x2000_0000;
    ShiftedBits(n);
    var low := (count[0] as int + shifted) % WORD;
    var carry := if low < shifted then 1 else 0;
    CarryOut(count[0], shifted);
    k := (count[1] as int + carry + q) / WORD;
    assert AddBits(count, n) == [low, (count[1] as int + carry + q) % WORD];
  }

  lemma ShiftedBits(n: word)
    ensures n * 8 == n / 0x2000_0000 * WORD + n * 8 % WORD
  {
  }

  lemma CarryOut(a: word, b: word)
    ensures var low := (a + b) % WORD; a + b == (if low < b then 1 else 0) * WORD + low
  {
  }

  lemma AddBitsCounts(count: seq<word>, octets: nat, n: word)
    requires Counts(count, octets)
    ensures Counts(AddBits(count, n), octets + n)
  {
    var k := AddBitsCarry(count, n);
    var r := AddBits(count, n);
    var j := 8 * octets / LONG;
    assert 8 * octets == j * LONG + (count[0] as int + WORD * count[1] as int);
    assert 8 * (octets + n) == (r[0] as int + WORD * r[1] as int) + (k + j) * LONG;
    ModUnique(8 * (octets + n), r[0] as int + WORD * r[1] as int, k + j, LONG);
  }

  /** The buffer index is recovered from the low count word alone. */
  lemma CountIndex(count: seq<word>, octets: nat)
    requires Counts(count, octets)
    ensures count[0] / 8 % 64 == octets % 64
  {
    var j := 8 * octets / LONG;
    var h := count[1] as int + j * WORD;
    assert 8 * octets == count[0] as int + WORD * h;
    assert count[0] / 8 == octets - 0x2000_0000 * h;
    ModUnique(count[0] / 8, octets % 64, octets / 64 - 0x80_0000 * h, 64);
  }

  /** The two count words are the two words section 3.2 appends. */
  lemma CountWords(count: seq<word>, octets: nat)
    requires Counts(count, octets)
    ensures count == [8 * octets % WORD, 8 * octets / WORD % WORD]
  {
    var j := 8 * octets / LONG;
    var h := count[1] as int + j * WORD;
    assert 8 * octets == count[0] as int + h * WORD;
    ModUnique(8 * octets, count[0], h, WORD);
    assert 8 * octets / WORD == h;
    ModUnique(h, count[1], j, WORD);
  }

  /** The number of padding octets MD5Final asks for. */
  function PadLen(idx: nat): (n: nat)
    requires idx < 64
    ensures 1 <= n <= 64
  {
    if idx < 56 then 56 - idx else 120 - idx
  }

  const PADDING: seq<byte> := [0x80] + Zeros(63)

  /** What MD5Final feeds in after the message completes it to the padded message. */
  lemma PaddingCompletes(m: seq<byte>, count: seq<word>)
    requires Counts(count, |m|)
    ensures m + PADDING[..PadLen(|m| % 64)] + Encode(count) == Padded(m)
  {
    CountWords(count, |m|);
    var n := PadLen(|m| % 64);
    PadLenIs(|m|);
    assert PADDING[..n] == [0x80] + Zeros(n - 1);
    assert m + PADDING[..n] == m + [0x80] + Zeros(n - 1);
  }

  lemma PadLenIs(n: nat)
    ensures PadLen(n % 64) - 1 == (55 - n) % 64
  {
    assert 55 - n == 55 - n % 64 - 64 * (n / 64);
    assert (55 - n) % 64 == (if n % 64 < 56 then 55 - n % 64 else 119 - n % 64);
  }

  // ---------------------------------------------------------------- the 32-bit loop guard

  /** Where the block loop of MD5Update must stop in a chunk of `n` octets behind `have` others. */
  function LoopEnd(have: nat, n: nat): (i: int)
    ensures i <= n < i + 64 && (have + i) % 64 == 0
  {
    n - (have + n) % 64
  }

  /** The chunk lengths for which the loop guard `i + 63` does not wrap around 2^32. */
  predicate Chunkable(have: nat, n: nat)
  {
    n < WORD && LoopEnd(have, n) + 63 < WORD
  }

  /** The guard lets the loop on exactly while there is another whole block. */
  lemma NextBlock(have: nat, n: nat, i: nat)
    requires Chunkable(have, n) && i <= LoopEnd(have, n) && (have + i) % 64 == 0
    ensures (i + 63) % WORD < n <==> i < LoopEnd(have, n)
    ensures i < LoopEnd(have, n) ==> i + 64 <= LoopEnd(have, n)
  {
    var end := LoopEnd(have, n);
    var a, b := (have + end) / 64, (have + i) / 64;
    assert have + end == 64 * a && have + i == 64 * b;
    assert (i + 63) % WORD == i + 63;
  }

  lemma InputBlock(before: seq<byte>, input: seq<byte>, i: nat)
    requires i + 64 <= |input|
    ensures (before + input)[|before| + i..|before| + i + 64] == input[i..i + 64]
  {
  }

  /** For an `unsigned int` length the loop stops where it must exactly for the lengths above;
      for the others the wrapped guard lets it run on past the end of the input. */
  lemma LoopStopsExactlyWhenChunkable(have: nat, n: nat)
    requires n < WORD && 0 <= LoopEnd(have, n)
    ensures Chunkable(have, n) <==> !((LoopEnd(have, n) + 63) % WORD < n)
  {
  }

  // ---------------------------------------------------------------- the machine

  /** Encode of md5.c. */
  method EncodeInto(output: array<byte>, input: seq<word>)
    requires 4 * |input| <= output.Length
    modifies output
    ensures output[..4 * |input|] == Encode(input)
    ensures forall i :: 0 <= i < |input| ==> Spelt(output[..], 4 * i) == input[i]
    ensures output[4 * |input|..] == old(output[4 * |input|..])
  {
    for i := 0 to |input|
      invariant output[..4 * i] == Encode(input[..i])
      invariant output[4 * |input|..] == old(output[4 * |input|..])
    {
      output[4 * i] := input[i] % 256;
      output[4 * i + 1] := input[i] / 256 % 256;
      output[4 * i + 2] := input[i] / 256 / 256 % 256;
      output[4 * i + 3] := input[i] / 256 / 256 / 256;
      assert output[4 * i..4 * i + 4] == LittleEndian(input[i]);
      assert output[..4 * i + 4] == output[..4 * i] + LittleEndian(input[i]);
      assert input[..i + 1][..i] == input[..i];
    }
    assert input[..|input|] == input;
    forall i | 0 <= i < |input|
      ensures Spelt(output[..], 4 * i) == input[i]
    {
      EncodeSpells(input, i);
      assert forall k :: 4 * i <= k < 4 * i + 4 ==> output[k] == output[..4 * |input|][k];
    }
  }

  class Context {
    const f: Compress
    var state: State
    var count: seq<word>
    const buffer: array<byte>
    ghost var message: seq<byte>

    /** The stream invariant: the state has absorbed exactly the whole blocks, the buffer holds
        exactly the remainder, and the two count words hold the bit length modulo 2^64. */
    ghost predicate Valid()
      reads this, buffer
    {
      && buffer.Length == 64
      && Counts(count, |message|)
      && Absorbed(f, state, message, Whole(message))
      && Holds(message, Whole(message))
    }

    constructor (f: Compress)
      ensures Valid() && fresh(buffer) && message == [] && this.f == f
    {
      this.f := f;
      count := [0, 0];
      state := INITIAL;
      buffer := new byte[64];
      message := [];
    }

    /** MD5_memcpy into the block buffer. */
    method CopyIn(at: nat, src: seq<byte>)
      requires at + |src| <= buffer.Length
      modifies buffer
      ensures buffer[..at] == old(buffer[..at])
      ensures buffer[at..at + |src|] == src
    {
      for i := 0 to |src|
        invariant buffer[..at] == old(buffer[..at])
        invariant buffer[at..at + i] == src[..i]
      {
        buffer[at + i] := src[i];
      }
    }

    /** The block buffer holds the octets of `m` from `n` on. */
    ghost predicate Holds(m: seq<byte>, n: nat)
      reads buffer
    {
      n <= |m| <= n + buffer.Length && buffer[..|m| - n] == m[n..]
    }

    /** Copying `src` behind what the buffer holds extends what it holds. */
    method Append(ghost m: seq<byte>, ghost n: nat, at: nat, src: seq<byte>)
      requires Holds(m, n) && at == |m| - n && at + |src| <= buffer.Length
      modifies buffer
      ensures Holds(m + src, n)
    {
      CopyIn(at, src);
      assert buffer[..at + |src|] == buffer[..at] + buffer[at..at + |src|];
    }

    method AbsorbNext(input: seq<byte>, i: nat, ghost before: seq<byte>)
      requires i + 64 <= |input| && Absorbed(f, state, before + input, |before| + i)
      modifies this`state
      ensures Absorbed(f, state, before + input, |before| + i + 64)
    {
      InputBlock(before, input, i);
      AbsorbBlock(f, state, before + input, |before| + i, input[i..i + 64]);
      state := f(state, input[i..i + 64]);
    }

    /** The `for` loop of MD5Update over the blocks that lie wholly inside the input. */
    method AbsorbWhole(input: seq<byte>, from: nat, ghost before: seq<byte>) returns (i: nat)
      requires Chunkable(|before|, |input|) && from <= LoopEnd(|before|, |input|)
      requires Absorbed(f, state, before + input, |before| + from)
      modifies this`state
      ensures i <= |input| < i + 64
      ensures Absorbed(f, state, before + input, |before| + i)
    {
      i := from;
      ghost var all := before + input;
      while (i + 63) % WORD < |input|
        invariant i <= LoopEnd(|before|, |input|)
        invariant Absorbed(f, state, all, |before| + i)
      {
        NextBlock(|before|, |input|, i);
        AbsorbNext(input, i, before);
        i := i + 64;
      }
      NextBlock(|before|, |input|, i);
    }

    /** The first branch of MD5Update: complete the buffered block and absorb it. */
    method AbsorbBuffered(input: seq<byte>, idx: nat)
      requires buffer.Length == 64 && idx == |message| - Whole(message) && 64 - idx <= |input|
      requires Holds(message, Whole(message))
      requires Absorbed(f, state, message, Whole(message))
      modifies this`state, buffer
      ensures Absorbed(f, state, message + input, |message| + 64 - idx)
    {
      ghost var all, whole := message + input, Whole(message);
      AbsorbMore(f, state, message, input, whole);
      Append(message, whole, idx, input[..64 - idx]);
      assert (message + input[..64 - idx])[whole..] == all[whole..whole + 64];
      AbsorbBlock(f, state, all, whole, buffer[..]);
      state := f(state, buffer[..]);
    }

    /** MD5Update on input that completes the buffered block. */
    method UpdateLong(input: seq<byte>, idx: nat)
      requires buffer.Length == 64 && idx == |message| - Whole(message) && 64 - idx <= |input|
      requires Chunkable(|message|, |input|)
      requires Holds(message, Whole(message))
      requires Absorbed(f, state, message, Whole(message))
      modifies this`state, buffer
      ensures Absorbed(f, state, message + input, Whole(message + input))
      ensures Holds(message + input, Whole(message + input))
    {
      AbsorbBuffered(input, idx);
      assert 64 - idx <= LoopEnd(|message|, |input|);
      var i := AbsorbWhole(input, 64 - idx, message);
      WholeIs(message + input, |message| + i);
      assert message + input[..i] + input[i..] == message + input;
      Append(message + input[..i], |message| + i, 0, input[i..]);
    }

    /** MD5Update. */
    method Update(input: seq<byte>)
      requires Valid()
      requires Chunkable(|message|, |input|)
      modifies this`state, this`count, this`message, buffer
      ensures Valid() && message == old(message) + input
    {
      CountIndex(count, |message|);
      AddBitsCounts(count, |message|, |input|);
      var idx := count[0] / 8 % 64;
      count := AddBits(count, |input|);
      assert Counts(count, |message + input|);
      if |input| >= 64 - idx {
        UpdateLong(input, idx);
      } else {
        AbsorbMore(f, state, message, input, Whole(message));
        Append(message, Whole(message), idx, input);
        WholeIs(message + input, Whole(message));
      }
      message := message + input;
    }

    /** MD5Final: pad, append the length, write out the state and wipe the context. */
    method Final(digest: array<byte>)
      requires Valid() && digest.Length == 16 && digest != buffer
      modifies this`state, this`count, this`message, buffer, digest
      ensures digest[..] == DigestOf(f, old(message))
      ensures state == [0, 0, 0, 0] && count == [0, 0] && buffer[..] == Zeros(64)
    {
      ghost var m := message;
      PaddingCompletes(message, count);
      CountIndex(count, |message|);
      var bits := new byte[8];
      EncodeInto(bits, count);
      var idx := count[0] / 8 % 64;
      Update(PADDING[..PadLen(idx)]);
      assert bits[..8] == bits[..];
      Update(bits[..]);
      assert message == Padded(m);
      WholeIs(message, |message|);
      assert message[..|message|] == message;
      EncodeInto(digest, state);
      assert digest[..16] == digest[..];
      Wipe();
    }

    method Wipe()
      requires buffer.Length == 64
      modifies this`state, this`count, buffer
      ensures state == [0, 0, 0, 0] && count == [0, 0] && buffer[..] == Zeros(64)
    {
      state, count := [0, 0, 0, 0], [0, 0];
      for i := 0 to 64
        invariant state == [0, 0, 0, 0] && count == [0, 0]
        invariant forall k :: 0 <= k < i ==> buffer[k] == 0
      {
        buffer[i] := 0;
      }
    }
  }

  // ---------------------------------------------------------------- every way of cutting a message

  function Concat(chunks: seq<seq<byte>>): (m: seq<byte>)
  {
    if chunks == [] then [] else Concat(chunks[..|chunks| - 1]) + chunks[|chunks| - 1]
  }

  /** Initialise, update with any sequence of chunks, finalise: the result is the digest of the
      concatenation, so it does not depend on where the message was cut. */
  method Stream(f: Compress, chunks: seq<seq<byte>>) returns (digest: Digest)
    requires forall i :: 0 <= i < |chunks| ==> Chunkable(|Concat(chunks[..i])|, |chunks[i]|)
    ensures digest == DigestOf(f, Concat(chunks))
  {
    var context := new Context(f);
    for i := 0 to |chunks|
      invariant context.Valid() && context.f == f && fresh(context) && fresh(context.buffer)
      invariant context.message == Concat(chunks[..i])
    {
      context.Update(chunks[i]);
      assert chunks[..i + 1][..i] == chunks[..i];
    }
    assert chunks[..|chunks|] == chunks;
    var out := new byte[16];
    context.Final(out);
    digest := out[..];
  }

  /** librad_md5_calc: the one-chunk case. */
  method Calc(f: Compress, input: seq<byte>) returns (digest: Digest)
    requires Chunkable(0, |input|)
    ensures digest == DigestOf(f, input)
  {
    digest := Stream(f, [input]);
    assert Concat([input]) == input;
  }
}
