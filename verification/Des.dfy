/**
 The DES network behind the SMB password hashes (smbdes.c; FIPS 46-3), over bits.  The network is
 stated for any tables of the right shape; the tables of the program are shown to have it.
 */
module Des {
  type bit = b: int | 0 <= b <= 1

  /** A table of positions, counted from 1, in rows as printed. */
  type Table = seq<seq<int>>

  predicate Shaped(t: Table, rows: nat, width: nat)
  {
    |t| == rows && forall i :: 0 <= i < rows ==> |t[i]| == width
  }

  /** The rows select from `n` positions. */
  predicate Selects(t: Table, width: nat, n: nat)
  {
    Shaped(t, 8, width) && forall i, j :: 0 <= i < 8 && 0 <= j < width ==> 1 <= t[i][j] <= n
  }

  function Entry(t: Table, width: nat, n: nat, i: nat): (r: nat)
    requires Selects(t, width, n) && i < 8 * width
    ensures r < n
  {
    InRows(i, width);
    t[i / width][i % width] - 1
  }

  lemma InRows(i: nat, width: nat)
    requires i < 8 * width
    ensures 0 <= i / width < 8 && 0 <= i % width < width
  {
    assert i == width * (i / width) + i % width;
  }

  datatype Tables = Tables(key1: Table, key2: Table, initial: Table, expand: Table, mix: Table, final: Table,
                           shifts: seq<nat>, sbox: seq<Table>)

  /** How far the key halves have turned before round `k`. */
  function Total(shifts: seq<nat>, k: nat): (n: nat)
    requires k <= |shifts|
  {
    if k == 0 then 0 else Total(shifts, k - 1) + shifts[k - 1]
  }

  /** `q` undoes `p`, both on 64 positions. */
  predicate Undoes(p: Table, q: Table)
    requires Selects(p, 8, 64) && Selects(q, 8, 64)
  {
    forall i: nat :: i < 64 ==> Entry(q, 8, 64, Entry(p, 8, 64, i)) == i
  }

  ghost predicate GoodKeys(t: Tables)
  {
    && Selects(t.key1, 7, 64) && Selects(t.key2, 6, 56)
    && |t.shifts| == 16 && Total(t.shifts, |t.shifts|) == 28
  }

  ghost predicate Good(t: Tables)
  {
    && GoodKeys(t)
    && Selects(t.initial, 8, 64) && Selects(t.final, 8, 64)
    && Undoes(t.initial, t.final) && Undoes(t.final, t.initial)
    && Selects(t.expand, 6, 32) && Selects(t.mix, 4, 32)
    && |t.sbox| == 8 && forall j :: 0 <= j < 8 ==> Shaped(t.sbox[j], 4, 16)
  }

  // ---------------------------------------------------------------- selections and rotations

  function Permuted(t: Table, width: nat, n: nat, s: seq<bit>): (r: seq<bit>)
    requires Selects(t, width, n) && |s| == n
    ensures |r| == 8 * width && forall i: nat :: i < |r| ==> r[i] == s[Entry(t, width, n, i)]
  {
    seq(8 * width, i requires 0 <= i < 8 * width => s[Entry(t, width, n, i)])
  }

  lemma PermutedBack(p: Table, q: Table, s: seq<bit>)
    requires Selects(p, 8, 64) && Selects(q, 8, 64) && Undoes(p, q) && |s| == 64
    ensures Permuted(p, 8, 64, Permuted(q, 8, 64, s)) == s
  {
  }

  function Rotated(s: seq<bit>, count: nat): (r: seq<bit>)
    requires |s| == 28
    ensures |r| == 28
  {
    s[count % 28..] + s[..count % 28]
  }

  lemma RotatedAt(s: seq<bit>, count: nat, i: nat)
    requires |s| == 28 && i < 28
    ensures Rotated(s, count)[i] == s[(i + count) % 28]
  {
    ModSum(count, i);
  }

  lemma RotatedTwice(s: seq<bit>, a: nat, b: nat)
    requires |s| == 28
    ensures Rotated(Rotated(s, a), b) == Rotated(s, a + b)
  {
    var r := Rotated(s, a);
    forall i: nat | i < 28
      ensures Rotated(r, b)[i] == Rotated(s, a + b)[i]
    {
      RotatedAt(r, b, i);
      RotatedAt(s, a, (i + b) % 28);
      RotatedAt(s, a + b, i);
      ModSum(i + b, a);
    }
  }

  lemma ModSum(x: nat, y: nat)
    ensures (x % 28 + y) % 28 == (x + y) % 28
  {
    assert x + y == 28 * (x / 28) + (x % 28 + y);
  }

  lemma RotatedAround(s: seq<bit>)
    requires |s| == 28
    ensures Rotated(s, 28) == s && Rotated(s, 0) == s
  {
  }

  function XorBit(a: bit, b: bit): (r: bit)
  {
    if a == b then 0 else 1
  }

  function Xored(a: seq<bit>, b: seq<bit>): (r: seq<bit>)
    requires |a| == |b|
    ensures |r| == |a| && forall i :: 0 <= i < |r| ==> r[i] == XorBit(a[i], b[i])
  {
    seq(|a|, i requires 0 <= i < |a| => XorBit(a[i], b[i]))
  }

  lemma XoredTwice(a: seq<bit>, b: seq<bit>)
    requires |a| == |b|
    ensures Xored(Xored(a, b), b) == a
  {
  }

  // ---------------------------------------------------------------- the network

  function RowOf(a: bit, b: bit): (m: nat)
    ensures m < 4
  {
    2 * (a as int) + b
  }

  function ColumnOf(a: bit, b: bit, c: bit, d: bit): (n: nat)
    ensures n < 16
  {
    8 * (a as int) + 4 * (b as int) + 2 * (c as int) + d
  }

  function OutBit(v: int, k: nat): (r: bit)
    requires k < 4
  {
    v / (if k == 0 then 8 else if k == 1 then 4 else if k == 2 then 2 else 1) % 2
  }

  /** Six bits choose a row and a column; the entry's four low bits come out, high bit first. */
  function BoxBit(box: Table, six: seq<bit>, k: nat): (r: bit)
    requires Shaped(box, 4, 16) && |six| == 6 && k < 4
  {
    OutBit(box[RowOf(six[0], six[5])][ColumnOf(six[1], six[2], six[3], six[4])], k)
  }

  /** Four bits, high bit first, are the low bits of the entry that six bits choose: the outer two the row,
      the inner four the column. */
  predicate Spells(box: Table, six: seq<bit>, four: seq<bit>)
    requires Shaped(box, 4, 16) && |six| == 6 && |four| == 4
  {
    var row := box[2 * (six[0] as int) + six[5] as int];
    var v := row[8 * (six[1] as int) + 4 * (six[2] as int) + 2 * (six[3] as int) + six[4] as int];
    8 * (four[0] as int) + 4 * (four[1] as int) + 2 * (four[2] as int) + four[3] as int == v % 16
  }

  lemma BitsSpell(v: int)
    ensures 8 * (OutBit(v, 0) as int) + 4 * (OutBit(v, 1) as int) + 2 * (OutBit(v, 2) as int) + OutBit(v, 3) as int
         == v % 16
  {
    InHalves(v);
    InHalves(v / 2);
    InHalves(v / 4);
    InHalves(v / 8);
    assert v / 2 / 2 == v / 4 && v / 4 / 2 == v / 8 && v / 8 / 2 == v / 16;
    assert v == 16 * (v / 16) + v % 16;
  }

  lemma InHalves(v: int)
    ensures v == 2 * (v / 2) + v % 2
  {
  }

  lemma BoxSpells(box: Table, six: seq<bit>, four: seq<bit>)
    requires Shaped(box, 4, 16) && |six| == 6 && |four| == 4
    requires forall k :: 0 <= k < 4 ==> four[k] == BoxBit(box, six, k)
    ensures Spells(box, six, four)
  {
    var v := box[RowOf(six[0], six[5])][ColumnOf(six[1], six[2], six[3], six[4])];
    BitsSpell(v);
  }

  function Boxed(boxes: seq<Table>, s: seq<bit>): (r: seq<bit>)
    requires |boxes| == 8 && |s| == 48 && forall j :: 0 <= j < 8 ==> Shaped(boxes[j], 4, 16)
    ensures |r| == 32
    ensures forall i :: 0 <= i < 32 ==> r[i] == BoxBit(boxes[i / 4], s[6 * (i / 4)..6 * (i / 4) + 6], i % 4)
  {
    seq(32, i requires 0 <= i < 32 => BoxBit(boxes[i / 4], s[6 * (i / 4)..6 * (i / 4) + 6], i % 4))
  }

  lemma GroupBit(boxes: seq<Table>, s: seq<bit>, j: nat, k: nat, i: nat)
    requires |boxes| == 8 && |s| == 48 && (forall j :: 0 <= j < 8 ==> Shaped(boxes[j], 4, 16))
    requires j < 8 && k < 4 && i == 4 * j + k
    ensures Boxed(boxes, s)[i] == BoxBit(boxes[j], s[6 * j..6 * j + 6], k)
  {
    assert i / 4 == j && i % 4 == k;
  }

  lemma FourthBit(r: seq<bit>, j: nat, k: nat)
    requires 4 * j + 4 <= |r| && k < 4
    ensures r[4 * j..4 * j + 4][k] == r[4 * j + k]
  {
  }

  /** Group by group, the boxes spell their entries. */
  lemma BoxedSpells(boxes: seq<Table>, s: seq<bit>, j: nat)
    requires |boxes| == 8 && |s| == 48 && (forall j :: 0 <= j < 8 ==> Shaped(boxes[j], 4, 16)) && j < 8
    ensures Spells(boxes[j], s[6 * j..6 * j + 6], Boxed(boxes, s)[4 * j..4 * j + 4])
  {
    var r := Boxed(boxes, s);
    var four := r[4 * j..4 * j + 4];
    forall k | 0 <= k < 4 ensures four[k] == BoxBit(boxes[j], s[6 * j..6 * j + 6], k) {
      FourthBit(r, j, k);
      GroupBit(boxes, s, j, k, 4 * j + k);
    }
    BoxSpells(boxes[j], s[6 * j..6 * j + 6], four);
  }

  ghost function Mixed(t: Tables, r: seq<bit>, key: seq<bit>): (m: seq<bit>)
    requires Good(t) && |r| == 32 && |key| == 48
    ensures |m| == 32
  {
    Permuted(t.mix, 4, 32, Boxed(t.sbox, Xored(Permuted(t.expand, 6, 32, r), key)))
  }

  datatype Halves = Halves(l: seq<bit>, r: seq<bit>)

  predicate Block(h: Halves)
  {
    |h.l| == |h.r| == 32
  }

  predicate Keys(keys: seq<seq<bit>>)
  {
    forall i :: 0 <= i < |keys| ==> |keys[i]| == 48
  }

  function Swap(h: Halves): (r: Halves)
  {
    Halves(h.r, h.l)
  }

  ghost function Round(t: Tables, key: seq<bit>, h: Halves): (r: Halves)
    requires Good(t) && Block(h) && |key| == 48
    ensures Block(r)
  {
    Halves(h.r, Xored(h.l, Mixed(t, h.r, key)))
  }

  ghost function Rounds(t: Tables, keys: seq<seq<bit>>, h: Halves): (r: Halves)
    requires Good(t) && Block(h) && Keys(keys)
    ensures Block(r)
  {
    if keys == [] then h else Round(t, keys[|keys| - 1], Rounds(t, keys[..|keys| - 1], h))
  }

  function Reversed(keys: seq<seq<bit>>): (r: seq<seq<bit>>)
    ensures |r| == |keys| && (Keys(keys) ==> Keys(r))
    ensures forall i :: 0 <= i < |r| ==> r[i] == keys[|r| - 1 - i]
  {
    seq(|keys|, i requires 0 <= i < |keys| => keys[|keys| - 1 - i])
  }

  /** A round, with the halves swapped, undoes itself -- whatever the boxes do. */
  lemma RoundUndone(t: Tables, key: seq<bit>, h: Halves)
    requires Good(t) && Block(h) && |key| == 48
    ensures Round(t, key, Swap(Round(t, key, h))) == Swap(h)
  {
    XoredTwice(h.l, Mixed(t, h.r, key));
  }

  lemma {:induction false} RoundsCons(t: Tables, key: seq<bit>, keys: seq<seq<bit>>, h: Halves)
    requires Good(t) && Block(h) && Keys(keys) && |key| == 48
    ensures Keys([key] + keys) && Rounds(t, [key] + keys, h) == Rounds(t, keys, Round(t, key, h))
  {
    if keys == [] {
      assert ([key] + keys)[..0] == [];
    } else {
      RoundsCons(t, key, keys[..|keys| - 1], h);
      assert ([key] + keys)[..|keys|] == [key] + keys[..|keys| - 1];
    }
  }

  lemma {:induction false} RoundsUndone(t: Tables, keys: seq<seq<bit>>, h: Halves)
    requires Good(t) && Block(h) && Keys(keys)
    ensures Rounds(t, Reversed(keys), Swap(Rounds(t, keys, h))) == Swap(h)
  {
    if keys != [] {
      var init, key := keys[..|keys| - 1], keys[|keys| - 1];
      assert Reversed(keys) == [key] + Reversed(init);
      var mid := Rounds(t, init, h);
      RoundsCons(t, key, Reversed(init), Swap(Round(t, key, mid)));
      RoundUndone(t, key, mid);
      RoundsUndone(t, init, h);
    }
  }

  function Split(s: seq<bit>): (h: Halves)
    requires |s| == 64
    ensures Block(h)
  {
    Halves(s[..32], s[32..])
  }

  ghost function Cipher(t: Tables, keys: seq<seq<bit>>, block: seq<bit>): (r: seq<bit>)
    requires Good(t) && Keys(keys) && |block| == 64
    ensures |r| == 64
  {
    var h := Rounds(t, keys, Split(Permuted(t.initial, 8, 64, block)));
    Permuted(t.final, 8, 64, h.r + h.l)
  }

  /** Running the rounds with the keys in reverse order gives the block back. */
  lemma Deciphered(t: Tables, keys: seq<seq<bit>>, block: seq<bit>)
    requires Good(t) && Keys(keys) && |block| == 64
    ensures Cipher(t, Reversed(keys), Cipher(t, keys, block)) == block
  {
    var p := Permuted(t.initial, 8, 64, block);
    var h := Rounds(t, keys, Split(p));
    PermutedBack(t.initial, t.final, h.r + h.l);
    assert Split(h.r + h.l) == Swap(h);
    RoundsUndone(t, keys, Split(p));
    assert Split(p).l + Split(p).r == p;
    PermutedBack(t.final, t.initial, block);
  }

  /** For every key schedule the network is a permutation of the 64-bit blocks. */
  lemma CipherIsPermutation(t: Tables, keys: seq<seq<bit>>, x: seq<bit>, y: seq<bit>)
    requires Good(t) && Keys(keys) && |x| == |y| == 64
    ensures Cipher(t, keys, x) == Cipher(t, keys, y) ==> x == y
    ensures Cipher(t, keys, Cipher(t, Reversed(keys), y)) == y
  {
    Deciphered(t, keys, x);
    Deciphered(t, keys, y);
    assert Reversed(Reversed(keys)) == keys;
    Deciphered(t, Reversed(keys), y);
  }

  // ---------------------------------------------------------------- the key schedule

  /** The two halves of a key, which turn together. */
  predicate KeyHalves(h: Halves)
  {
    |h.l| == |h.r| == 28
  }

  function Turned(h: Halves, n: nat): (r: Halves)
    requires KeyHalves(h)
    ensures KeyHalves(r)
  {
    Halves(Rotated(h.l, n), Rotated(h.r, n))
  }

  lemma TurnedTwice(h: Halves, a: nat, b: nat)
    requires KeyHalves(h)
    ensures Turned(Turned(h, a), b) == Turned(h, a + b)
  {
    RotatedTwice(h.l, a, b);
    RotatedTwice(h.r, a, b);
  }

  lemma TurnedAround(h: Halves)
    requires KeyHalves(h)
    ensures Turned(h, 0) == h && Turned(h, 28) == h
  {
    RotatedAround(h.l);
    RotatedAround(h.r);
  }

  /** Turned by each of the first `k` amounts in order. */
  function TurnedBy(h: Halves, shifts: seq<nat>, k: nat): (r: Halves)
    requires KeyHalves(h) && k <= |shifts|
    ensures KeyHalves(r)
  {
    if k == 0 then h else Turned(TurnedBy(h, shifts, k - 1), shifts[k - 1])
  }

  /** The halves before a round depend on the total only... */
  lemma {:induction false} TurnedByTotal(h: Halves, shifts: seq<nat>, k: nat)
    requires KeyHalves(h) && k <= |shifts|
    ensures TurnedBy(h, shifts, k) == Turned(h, Total(shifts, k))
  {
    if k == 0 {
      TurnedAround(h);
    } else {
      TurnedByTotal(h, shifts, k - 1);
      TurnedTwice(h, Total(shifts, k - 1), shifts[k - 1]);
    }
  }

  /** ...and after all of them they are back where they began. */
  lemma TurnedHome(t: Tables, h: Halves)
    requires GoodKeys(t) && KeyHalves(h)
    ensures TurnedBy(h, t.shifts, |t.shifts|) == h
  {
    TurnedByTotal(h, t.shifts, |t.shifts|);
    TurnedAround(h);
  }

  ghost function RoundKey(t: Tables, h: Halves): (k: seq<bit>)
    requires GoodKeys(t) && KeyHalves(h)
    ensures |k| == 48
  {
    Permuted(t.key2, 6, 56, h.l + h.r)
  }

  ghost function RoundKeys(t: Tables, h: Halves, n: nat): (ks: seq<seq<bit>>)
    requires GoodKeys(t) && KeyHalves(h) && n <= |t.shifts|
    ensures |ks| == n && Keys(ks)
  {
    if n == 0 then [] else RoundKeys(t, h, n - 1) + [RoundKey(t, TurnedBy(h, t.shifts, n))]
  }

  ghost function Schedule(t: Tables, key: seq<bit>): (ks: seq<seq<bit>>)
    requires GoodKeys(t) && |key| == 64
    ensures |ks| == 16 && Keys(ks)
  {
    var pk := Permuted(t.key1, 7, 64, key);
    RoundKeys(t, Halves(pk[..28], pk[28..]), |t.shifts|)
  }
}
