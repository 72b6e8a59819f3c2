/**
 The hash as the program computes it (permute, lshift, concat, xor and dohash in smbdes.c): fixed arrays
 overwritten round by round, proved to compute the network.
 */
module DesHash {
  import opened Des

  method Permute(out: array<bit>, inp: array<bit>, t: Table, width: nat, n: nat)
    requires Selects(t, width, n) && inp.Length == n && out.Length == 8 * width && out != inp
    modifies out
    ensures out[..] == Permuted(t, width, n, inp[..])
  {
    for i := 0 to 8 * width
      invariant forall j: nat :: j < i ==> out[j] == inp[Entry(t, width, n, j)]
    {
      out[i] := inp[Entry(t, width, n, i)];
    }
  }

  method LeftShift(d: array<bit>, count: nat)
    requires d.Length == 28
    modifies d
    ensures d[..] == Rotated(old(d[..]), count)
  {
    ghost var s := d[..];
    var out := new bit[64];
    for i := 0 to 28
      invariant d[..] == s && forall j :: 0 <= j < i ==> out[j] == Rotated(s, count)[j]
    {
      RotatedAt(s, count, i);
      out[i] := d[(i + count) % 28];
    }
    for i := 0 to 28
      invariant forall j :: 0 <= j < 28 ==> out[j] == Rotated(s, count)[j]
      invariant forall j :: 0 <= j < i ==> d[j] == Rotated(s, count)[j]
    {
      d[i] := out[i];
    }
  }

  method Concat(out: array<bit>, a: array<bit>, b: array<bit>)
    requires out.Length == a.Length + b.Length && out != a && out != b
    modifies out
    ensures out[..] == a[..] + b[..]
  {
    for i := 0 to a.Length
      invariant forall j :: 0 <= j < i ==> out[j] == a[j]
    {
      out[i] := a[i];
    }
    for i := 0 to b.Length
      invariant forall j :: 0 <= j < a.Length ==> out[j] == a[j]
      invariant forall j :: 0 <= j < i ==> out[a.Length + j] == b[j]
    {
      out[a.Length + i] := b[i];
    }
  }

  method XorBits(out: array<bit>, a: array<bit>, b: array<bit>)
    requires out.Length == a.Length == b.Length && out != a && out != b
    modifies out
    ensures out[..] == Xored(a[..], b[..])
  {
    for i := 0 to a.Length
      invariant forall j :: 0 <= j < i ==> out[j] == XorBit(a[j], b[j])
    {
      out[i] := XorBit(a[i], b[i]);
    }
  }

  method Copy(out: array<bit>, inp: array<bit>, start: nat)
    requires start + out.Length <= inp.Length && out != inp
    modifies out
    ensures out[..] == inp[start..start + out.Length]
  {
    for i := 0 to out.Length
      invariant forall j :: 0 <= j < i ==> out[j] == inp[start + j]
    {
      out[i] := inp[start + i];
    }
  }

  /** One turn of both halves, and the round key read off them. */
  method TurnOnce(t: Tables, c: array<bit>, d: array<bit>, count: nat) returns (k: seq<bit>)
    requires GoodKeys(t) && c.Length == d.Length == 28 && c != d
    modifies c, d
    ensures Halves(c[..], d[..]) == Turned(Halves(old(c[..]), old(d[..])), count)
    ensures k == RoundKey(t, Halves(c[..], d[..]))
  {
    LeftShift(c, count);
    LeftShift(d, count);
    var cd, ki := new bit[56], new bit[48];
    Concat(cd, c, d);
    Permute(ki, cd, t.key2, 6, 56);
    k := ki[..];
  }

  /** The sixteen round keys; the halves end where they began. */
  method Turn(t: Tables, c: array<bit>, d: array<bit>) returns (ks: seq<seq<bit>>)
    requires GoodKeys(t) && c.Length == d.Length == 28 && c != d
    modifies c, d
    ensures ks == RoundKeys(t, Halves(old(c[..]), old(d[..])), |t.shifts|)
    ensures c[..] == old(c[..]) && d[..] == old(d[..])
  {
    ghost var h := Halves(c[..], d[..]);
    ks := [];
    for i := 0 to |t.shifts|
      invariant Halves(c[..], d[..]) == TurnedBy(h, t.shifts, i)
      invariant ks == RoundKeys(t, h, i)
    {
      var k := TurnOnce(t, c, d, t.shifts[i]);
      ks := ks + [k];
    }
    TurnedHome(t, h);
  }

  method KeySchedule(t: Tables, key: array<bit>) returns (ks: seq<seq<bit>>)
    requires GoodKeys(t) && key.Length == 64
    ensures ks == Schedule(t, key[..])
  {
    var pk1 := new bit[56];
    Permute(pk1, key, t.key1, 7, 64);
    var c, d := new bit[28], new bit[28];
    Copy(c, pk1, 0);
    Copy(d, pk1, 28);
    ghost var pk := pk1[..];
    assert c[..] == pk[..28] && d[..] == pk[28..];
    ks := Turn(t, c, d);
  }

  /** Row `j` of the boxes: six bits in, four bits out in their place. */
  method LookUp(t: Tables, b: array2<bit>, j: nat)
    requires |t.sbox| == 8 && j < 8 && Shaped(t.sbox[j], 4, 16) && b.Length0 == 8 && b.Length1 == 6
    modifies b
    ensures forall i, k :: 0 <= i < 8 && i != j && 0 <= k < 6 ==> b[i, k] == old(b[i, k])
    ensures forall k :: 0 <= k < 4 ==>
              b[j, k] == BoxBit(t.sbox[j], old([b[j, 0], b[j, 1], b[j, 2], b[j, 3], b[j, 4], b[j, 5]]), k)
  {
    var m := RowOf(b[j, 0], b[j, 5]);
    var n := ColumnOf(b[j, 1], b[j, 2], b[j, 3], b[j, 4]);
    for k := 0 to 4
      invariant forall i, k' :: 0 <= i < 8 && i != j && 0 <= k' < 6 ==> b[i, k'] == old(b[i, k'])
      invariant forall k' :: 0 <= k' < k ==> b[j, k'] == OutBit(t.sbox[j][m][n], k')
    {
      b[j, k] := OutBit(t.sbox[j][m][n], k);
    }
  }

  predicate Boxes(t: Tables)
  {
    |t.sbox| == 8 && forall j :: 0 <= j < 8 ==> Shaped(t.sbox[j], 4, 16)
  }

  method SplitSixes(erk: array<bit>, b: array2<bit>)
    requires erk.Length == 48 && b.Length0 == 8 && b.Length1 == 6
    modifies b
    ensures forall j, k :: 0 <= j < 8 && 0 <= k < 6 ==> b[j, k] == erk[6 * j + k]
  {
    for j := 0 to 8
      invariant forall i, k :: 0 <= i < j && 0 <= k < 6 ==> b[i, k] == erk[6 * i + k]
    {
      for k := 0 to 6
        invariant forall i, k' :: 0 <= i < j && 0 <= k' < 6 ==> b[i, k'] == erk[6 * i + k']
        invariant forall k' :: 0 <= k' < k ==> b[j, k'] == erk[6 * j + k']
      {
        b[j, k] := erk[6 * j + k];
      }
    }
  }

  method LookUpAll(t: Tables, b: array2<bit>, ghost s: seq<bit>)
    requires Boxes(t) && |s| == 48 && b.Length0 == 8 && b.Length1 == 6
    requires forall j, k :: 0 <= j < 8 && 0 <= k < 6 ==> b[j, k] == s[6 * j + k]
    modifies b
    ensures forall j, k :: 0 <= j < 8 && 0 <= k < 4 ==> b[j, k] == BoxBit(t.sbox[j], s[6 * j..6 * j + 6], k)
  {
    for j := 0 to 8
      invariant forall i, k :: 0 <= i < j && 0 <= k < 4 ==> b[i, k] == BoxBit(t.sbox[i], s[6 * i..6 * i + 6], k)
      invariant forall i, k :: j <= i < 8 && 0 <= k < 6 ==> b[i, k] == s[6 * i + k]
    {
      assert s[6 * j..6 * j + 6] == [b[j, 0], b[j, 1], b[j, 2], b[j, 3], b[j, 4], b[j, 5]];
      LookUp(t, b, j);
    }
  }

  lemma Fours(j: nat, k: nat)
    requires k < 4
    ensures (4 * j + k) / 4 == j && (4 * j + k) % 4 == k
  {
  }

  method JoinFours(b: array2<bit>, cb: array<bit>)
    requires cb.Length == 32 && b.Length0 == 8 && b.Length1 == 6
    modifies cb
    ensures forall i :: 0 <= i < 32 ==> cb[i] == b[i / 4, i % 4]
  {
    for j := 0 to 8
      invariant forall i :: 0 <= i < 4 * j ==> cb[i] == b[i / 4, i % 4]
    {
      for k := 0 to 4
        invariant forall i :: 0 <= i < 4 * j + k ==> cb[i] == b[i / 4, i % 4]
      {
        Fours(j, k);
        cb[4 * j + k] := b[j, k];
      }
    }
  }

  method Substitute(t: Tables, erk: array<bit>, cb: array<bit>)
    requires Boxes(t) && erk.Length == 48 && cb.Length == 32
    modifies cb
    ensures cb[..] == Boxed(t.sbox, erk[..])
    ensures forall j :: 0 <= j < 8 ==> Spells(t.sbox[j], erk[..][6 * j..6 * j + 6], cb[..][4 * j..4 * j + 4])
  {
    var b := new bit[8, 6];
    ghost var s := erk[..];
    SplitSixes(erk, b);
    LookUpAll(t, b, s);
    JoinFours(b, cb);
    forall i | 0 <= i < 32 ensures cb[i] == Boxed(t.sbox, s)[i] {
      assert 0 <= i / 4 < 8 && 0 <= i % 4 < 4;
    }
    assert cb[..] == Boxed(t.sbox, s);
    forall j | 0 <= j < 8 ensures Spells(t.sbox[j], s[6 * j..6 * j + 6], cb[..][4 * j..4 * j + 4]) {
      BoxedSpells(t.sbox, s, j);
    }
  }

  method RoundInPlace(t: Tables, l: array<bit>, r: array<bit>, key: seq<bit>)
    requires Good(t) && l.Length == r.Length == 32 && l != r && |key| == 48
    modifies l, r
    ensures Halves(l[..], r[..]) == Round(t, key, Halves(old(l[..]), old(r[..])))
  {
    var er, erk, cb, pcb, r2 := new bit[48], new bit[48], new bit[32], new bit[32], new bit[32];
    var ki := new bit[48](i requires 0 <= i < 48 => key[i]);
    assert ki[..] == key;
    Permute(er, r, t.expand, 6, 32);
    XorBits(erk, er, ki);
    Substitute(t, erk, cb);
    Permute(pcb, cb, t.mix, 4, 32);
    XorBits(r2, l, pcb);
    Copy(l, r, 0);
    Copy(r, r2, 0);
    assert r[..] == r2[..];
  }

  /** The whole hash is the network run with the schedule of the key. */
  method DoHash(t: Tables, out: array<bit>, inp: array<bit>, key: array<bit>)
    requires Good(t) && out.Length == inp.Length == key.Length == 64 && out != inp && out != key
    modifies out
    ensures out[..] == Cipher(t, Schedule(t, key[..]), inp[..])
  {
    var ks := KeySchedule(t, key);
    var pd1, l, r, rl := new bit[64], new bit[32], new bit[32], new bit[64];
    Permute(pd1, inp, t.initial, 8, 64);
    Copy(l, pd1, 0);
    Copy(r, pd1, 32);
    ghost var h := Halves(l[..], r[..]);
    assert h == Split(Permuted(t.initial, 8, 64, inp[..]));
    AllRounds(t, l, r, ks);
    Concat(rl, r, l);
    Permute(out, rl, t.final, 8, 64);
  }

  method AllRounds(t: Tables, l: array<bit>, r: array<bit>, ks: seq<seq<bit>>)
    requires Good(t) && l.Length == r.Length == 32 && l != r && Keys(ks)
    modifies l, r
    ensures Halves(l[..], r[..]) == Rounds(t, ks, Halves(old(l[..]), old(r[..])))
  {
    ghost var h := Halves(l[..], r[..]);
    for i := 0 to |ks|
      invariant Halves(l[..], r[..]) == Rounds(t, ks[..i], h)
    {
      assert ks[..i + 1][..i] == ks[..i];
      RoundInPlace(t, l, r, ks[i]);
    }
    assert ks[..|ks|] == ks;
  }
}
