/**
 Laws of the DES network (FIPS 46-3) that say how key, block and tables enter it.
 */
module DesLaws {
  import opened Des
  import opened DesTables

  // ---------------------------------------------------------------- complementation

  function Complement(s: seq<bit>): (r: seq<bit>)
    ensures |r| == |s| && forall i :: 0 <= i < |r| ==> r[i] == 1 - s[i]
  {
    seq(|s|, i requires 0 <= i < |s| => 1 - s[i])
  }

  function ComplementHalves(h: Halves): (r: Halves)
  {
    Halves(Complement(h.l), Complement(h.r))
  }

  function ComplementAll(keys: seq<seq<bit>>): (r: seq<seq<bit>>)
    ensures |r| == |keys| && (Keys(keys) ==> Keys(r))
    ensures forall i :: 0 <= i < |r| ==> r[i] == Complement(keys[i])
  {
    seq(|keys|, i requires 0 <= i < |keys| => Complement(keys[i]))
  }

  lemma PermutedComplement(t: Table, width: nat, n: nat, s: seq<bit>)
    requires Selects(t, width, n) && |s| == n
    ensures Permuted(t, width, n, Complement(s)) == Complement(Permuted(t, width, n, s))
  {
  }

  lemma ComplementConcat(a: seq<bit>, b: seq<bit>)
    ensures Complement(a + b) == Complement(a) + Complement(b)
  {
  }

  lemma ComplementSlice(s: seq<bit>, i: nat, j: nat)
    requires i <= j <= |s|
    ensures Complement(s)[i..j] == Complement(s[i..j])
  {
  }

  lemma XoredComplements(a: seq<bit>, b: seq<bit>)
    requires |a| == |b|
    ensures Xored(Complement(a), Complement(b)) == Xored(a, b)
  {
  }

  lemma XoredComplement(a: seq<bit>, b: seq<bit>)
    requires |a| == |b|
    ensures Xored(Complement(a), b) == Complement(Xored(a, b))
  {
  }

  /** The boxes see the same bits when half and key are both complemented. */
  /** Blank bits of a round key, and of what a round adds, change nothing. */
  lemma BlankChangesNothing(a: seq<bit>, zeros: seq<bit>)
    requires |a| == |zeros| && forall i :: 0 <= i < |zeros| ==> zeros[i] == 0
    ensures Xored(a, zeros) == a
  {
  }

  /** With a blank round key the boxes see the expanded half itself ... */
  lemma BlankKey(t: Tables, r: seq<bit>, key: seq<bit>)
    requires Good(t) && |r| == 32 && |key| == 48 && forall i :: 0 <= i < 48 ==> key[i] == 0
    ensures Mixed(t, r, key) == Permuted(t.mix, 4, 32, Boxed(t.sbox, Permuted(t.expand, 6, 32, r)))
  {
    BlankChangesNothing(Permuted(t.expand, 6, 32, r), key);
  }

  /** ... and where the boxes and the mixing leave nothing but zeros, a round only exchanges the halves. */
  lemma BlankRound(t: Tables, key: seq<bit>, h: Halves)
    requires Good(t) && Block(h) && |key| == 48 && forall i :: 0 <= i < 32 ==> Mixed(t, h.r, key)[i] == 0
    ensures Round(t, key, h) == Halves(h.r, h.l)
  {
    BlankChangesNothing(h.l, Mixed(t, h.r, key));
  }

  lemma MixedComplement(t: Tables, r: seq<bit>, key: seq<bit>)
    requires Good(t) && |r| == 32 && |key| == 48
    ensures Mixed(t, Complement(r), Complement(key)) == Mixed(t, r, key)
  {
    PermutedComplement(t.expand, 6, 32, r);
    XoredComplements(Permuted(t.expand, 6, 32, r), key);
  }

  lemma RoundComplement(t: Tables, key: seq<bit>, h: Halves)
    requires Good(t) && Block(h) && |key| == 48
    ensures Round(t, Complement(key), ComplementHalves(h)) == ComplementHalves(Round(t, key, h))
  {
    MixedComplement(t, h.r, key);
    XoredComplement(h.l, Mixed(t, h.r, key));
  }

  lemma {:induction false} RoundsComplement(t: Tables, keys: seq<seq<bit>>, h: Halves)
    requires Good(t) && Block(h) && Keys(keys)
    ensures Rounds(t, ComplementAll(keys), ComplementHalves(h)) == ComplementHalves(Rounds(t, keys, h))
  {
    if keys != [] {
      var init, key := keys[..|keys| - 1], keys[|keys| - 1];
      RoundsComplement(t, init, h);
      RoundComplement(t, key, Rounds(t, init, h));
      assert ComplementAll(keys)[..|keys| - 1] == ComplementAll(init);
    }
  }

  lemma TurnedComplement(h: Halves, n: nat)
    requires KeyHalves(h)
    ensures Turned(ComplementHalves(h), n) == ComplementHalves(Turned(h, n))
  {
    RotatedComplement(h.l, n);
    RotatedComplement(h.r, n);
  }

  lemma RotatedComplement(s: seq<bit>, n: nat)
    requires |s| == 28
    ensures Rotated(Complement(s), n) == Complement(Rotated(s, n))
  {
    ComplementSlice(s, n % 28, 28);
    ComplementSlice(s, 0, n % 28);
    ComplementConcat(s[n % 28..], s[..n % 28]);
  }

  lemma {:induction false} TurnedByComplement(h: Halves, shifts: seq<nat>, k: nat)
    requires KeyHalves(h) && k <= |shifts|
    ensures TurnedBy(ComplementHalves(h), shifts, k) == ComplementHalves(TurnedBy(h, shifts, k))
  {
    if k > 0 {
      TurnedByComplement(h, shifts, k - 1);
      TurnedComplement(TurnedBy(h, shifts, k - 1), shifts[k - 1]);
    }
  }

  lemma {:induction false} RoundKeysComplement(t: Tables, h: Halves, n: nat)
    requires GoodKeys(t) && KeyHalves(h) && n <= |t.shifts|
    ensures RoundKeys(t, ComplementHalves(h), n) == ComplementAll(RoundKeys(t, h, n))
  {
    if n > 0 {
      RoundKeysComplement(t, h, n - 1);
      TurnedByComplement(h, t.shifts, n);
      var g := TurnedBy(h, t.shifts, n);
      ComplementConcat(g.l, g.r);
      PermutedComplement(t.key2, 6, 56, g.l + g.r);
    }
  }

  lemma ScheduleComplement(t: Tables, key: seq<bit>)
    requires GoodKeys(t) && |key| == 64
    ensures Schedule(t, Complement(key)) == ComplementAll(Schedule(t, key))
  {
    var pk := Permuted(t.key1, 7, 64, key);
    PermutedComplement(t.key1, 7, 64, key);
    ComplementSlice(pk, 0, 28);
    ComplementSlice(pk, 28, 56);
    assert Complement(pk)[28..] == Complement(pk)[28..56] && pk[28..] == pk[28..56];
    assert Complement(pk)[..28] == Complement(pk)[0..28] && pk[..28] == pk[0..28];
    RoundKeysComplement(t, Halves(pk[..28], pk[28..]), |t.shifts|);
  }

  /** Complementing key and block complements the result, whatever the tables are: the key is xored with
      the expanded half in every round. */
  lemma ComplementationLaw(t: Tables, key: seq<bit>, x: seq<bit>)
    requires Good(t) && |key| == |x| == 64
    ensures Cipher(t, Schedule(t, Complement(key)), Complement(x)) == Complement(Cipher(t, Schedule(t, key), x))
  {
    var ks := Schedule(t, key);
    ScheduleComplement(t, key);
    var p := Permuted(t.initial, 8, 64, x);
    PermutedComplement(t.initial, 8, 64, x);
    ComplementSlice(p, 0, 32);
    ComplementSlice(p, 32, 64);
    assert Split(Complement(p)) == ComplementHalves(Split(p)) by {
      assert p[..32] == p[0..32] && p[32..] == p[32..64];
      assert Complement(p)[..32] == Complement(p)[0..32] && Complement(p)[32..] == Complement(p)[32..64];
    }
    RoundsComplement(t, ks, Split(p));
    var h := Rounds(t, ks, Split(p));
    ComplementConcat(h.r, h.l);
    PermutedComplement(t.final, 8, 64, h.r + h.l);
  }

  // ---------------------------------------------------------------- where the bits come from

  /** Where position `p` of two turned halves comes from. */
  function Unturned(p: nat, turn: nat): (q: nat)
    requires p < 56
    ensures q < 56
  {
    if p < 28 then (p + turn) % 28 else 28 + (p - 28 + turn) % 28
  }

  lemma TurnedAt(pk: seq<bit>, turn: nat, p: nat)
    requires |pk| == 56 && p < 56
    ensures var g := Turned(Halves(pk[..28], pk[28..]), turn); (g.l + g.r)[p] == pk[Unturned(p, turn)]
  {
    if p < 28 {
      RotatedAt(pk[..28], turn, p);
    } else {
      RotatedAt(pk[28..], turn, p - 28);
    }
  }

  /** Bit `i` of round key `n` is a bit of the key, read off the half that has turned left `n` + 1 times. */
  lemma KeyBit(t: Tables, key: seq<bit>, n: nat, i: nat)
    requires GoodKeys(t) && |key| == 64 && n < 16 && i < 48
    ensures Schedule(t, key)[n][i]
         == key[Entry(t.key1, 7, 64, Unturned(Entry(t.key2, 6, 56, i), Total(t.shifts, n + 1)))]
  {
    var pk := Permuted(t.key1, 7, 64, key);
    var h := Halves(pk[..28], pk[28..]);
    RoundKeyIs(t, h, |t.shifts|, n);
    TurnedByTotal(h, t.shifts, n + 1);
    TurnedAt(pk, Total(t.shifts, n + 1), Entry(t.key2, 6, 56, i));
  }

  lemma {:induction false} RoundKeyIs(t: Tables, h: Halves, m: nat, n: nat)
    requires GoodKeys(t) && KeyHalves(h) && n < m <= |t.shifts|
    ensures RoundKeys(t, h, m)[n] == RoundKey(t, TurnedBy(h, t.shifts, n + 1))
  {
    if n < m - 1 {
      RoundKeyIs(t, h, m - 1, n);
    }
  }

  /** The first bit of the first round key is bit 10 of the key, that of the last one bit 18. */
  lemma FirstKeyBits(key: seq<bit>)
    requires |key| == 64
    ensures GoodKeys(DES) && Schedule(DES, key)[0][0] == key[9] && Schedule(DES, key)[15][0] == key[17]
  {
    TablesAreGood();
    KeyBit(DES, key, 0, 0);
    KeyBit(DES, key, 15, 0);
    assert Total(SHIFTS, 1) == 1;
    TotalShift();
  }

  /** Where a bit of the result comes from when there are no rounds. */
  function Source(i: nat): (n: int)
    requires i < 64
  {
    if i % 2 == 0 then i + 1 else i - 1
  }

  lemma EntryAt(t: Table, r: nat, j: nat)
    requires Selects(t, 8, 64) && r < 8 && j < 8
    ensures Entry(t, 8, 64, 8 * r + j) == t[r][j] - 1
  {
    assert (8 * r + j) / 8 == r && (8 * r + j) % 8 == j;
  }

  /** The place across the halves that the final permutation reads, in rows of eight. */
  lemma AcrossIs(r: nat, j: nat, e: int)
    requires r < 8 && j < 8 && e == (if j % 2 == 0 then 40 + 4 * j else 4 + 4 * j) - r - 1
    ensures (e + 32) % 64 == 8 * (if j % 2 == 0 then j / 2 else 4 + j / 2) + (7 - r)
  {
  }

  /** The initial permutation takes every eighth bit from the bottom: first the even bits, then the odd. */
  predicate InitialShape(t: Table)
  {
    Selects(t, 8, 64)
    && forall r, j :: 0 <= r < 8 && 0 <= j < 8 ==> t[r][j] == (if r < 4 then 58 + 2 * r else 49 + 2 * r) - 8 * j
  }

  /** The final permutation reads the two halves in turn, from the bottom. */
  predicate FinalShape(t: Table)
  {
    Selects(t, 8, 64)
    && forall r, j :: 0 <= r < 8 && 0 <= j < 8 ==> t[r][j] == (if j % 2 == 0 then 40 + 4 * j else 4 + 4 * j) - r
  }

  lemma InitialTable()
    ensures InitialShape(PERM3)
  {
    Selects3();
  }

  lemma FinalTable()
    ensures FinalShape(PERM6)
  {
    Selects6();
    forall r, j | 0 <= r < 8 && 0 <= j < 8
      ensures PERM6[r][j] == (if j % 2 == 0 then 40 + 4 * j else 4 + 4 * j) - r
    {
      FinalRow(r);
    }
  }

  lemma FinalRow(r: nat)
    requires r < 8
    ensures |PERM6| == 8 && |PERM6[r]| == 8
    ensures forall j :: 0 <= j < 8 ==> PERM6[r][j] == (if j % 2 == 0 then 40 + 4 * j else 4 + 4 * j) - r
  {
  }

  /** What the initial permutation has in the place that the final one reads. */
  lemma Across(p: Table, q: Table, i: nat)
    requires i < 64 && InitialShape(p) && FinalShape(q)
    ensures Entry(p, 8, 64, (Entry(q, 8, 64, i) + 32) % 64) == Source(i)
  {
    var r, j := i / 8, i % 8;
    AcrossRow(p, q, r, j, if j % 2 == 0 then j / 2 else 4 + j / 2);
    assert 8 * r + j == i;
  }

  lemma AcrossRow(p: Table, q: Table, r: nat, j: nat, k: nat)
    requires r < 8 && j < 8 && Selects(p, 8, 64) && Selects(q, 8, 64)
    requires k == if j % 2 == 0 then j / 2 else 4 + j / 2
    requires q[r][j] == (if j % 2 == 0 then 40 + 4 * j else 4 + 4 * j) - r
    requires p[k][7 - r] == (if k < 4 then 58 + 2 * k else 49 + 2 * k) - 8 * (7 - r)
    ensures Entry(p, 8, 64, (Entry(q, 8, 64, 8 * r + j) + 32) % 64) == Source(8 * r + j)
  {
    EntryAt(q, r, j);
    AcrossIs(r, j, Entry(q, 8, 64, 8 * r + j));
    EntryAt(p, k, 7 - r);
    SourceIs(r, j);
  }

  lemma SourceIs(r: nat, j: nat)
    requires r < 8 && j < 8
    ensures Source(8 * r + j) == 8 * r + if j % 2 == 0 then j + 1 else j - 1
  {
  }

  lemma HalvesExchanged(p: seq<bit>, e: nat)
    requires |p| == 64 && e < 64
    ensures (Split(p).r + Split(p).l)[e] == p[(e + 32) % 64]
  {
  }

  lemma NoRounds(t: Tables, x: seq<bit>, i: nat, e: nat, f: nat)
    requires Good(t) && |x| == 64 && i < 64 && e == Entry(t.final, 8, 64, i) && f == (e + 32) % 64
    ensures Cipher(t, [], x)[i] == x[Entry(t.initial, 8, 64, f)]
  {
    HalvesExchanged(Permuted(t.initial, 8, 64, x), e);
  }

  /** The place from which the network without rounds takes a bit. */
  function Origin(t: Tables, i: nat): (n: nat)
    requires Selects(t.initial, 8, 64) && Selects(t.final, 8, 64) && i < 64
    ensures n < 64
  {
    Entry(t.initial, 8, 64, (Entry(t.final, 8, 64, i) + 32) % 64)
  }

  lemma OriginIs(i: nat)
    requires i < 64
    ensures Selects(DES.initial, 8, 64) && Selects(DES.final, 8, 64) && Origin(DES, i) == Source(i)
  {
    InitialTable();
    FinalTable();
    Across(DES.initial, DES.final, i);
  }

  lemma FromOrigin(t: Tables, x: seq<bit>, i: nat)
    requires Good(t) && |x| == 64 && i < 64
    ensures Cipher(t, [], x)[i] == x[Origin(t, i)]
  {
    var e := Entry(t.final, 8, 64, i);
    NoRounds(t, x, i, e, (e + 32) % 64);
  }

  /** Without rounds the two permutations and the exchange of the halves between them exchange
      neighbouring bits. */
  lemma WithoutRounds(x: seq<bit>, i: nat)
    requires |x| == 64 && i < 64
    ensures Good(DES) && Cipher(DES, [], x)[i] == x[Source(i)]
  {
    TablesAreGood();
    FromOrigin(DES, x, i);
    OriginIs(i);
  }

  // ---------------------------------------------------------------- the tables

  /** Six bits for each box: its own four and a neighbour on either side, around the half. */
  lemma ExpandTable(r: nat, j: nat)
    requires r < 8 && j < 6
    ensures |PERM4| == 8 && |PERM4[r]| == 6 && PERM4[r][j] == (4 * r + j + 31) % 32 + 1
  {
  }

  /** Every eighth bit of the key is left out. */
  lemma ParityLeftOut(r: nat, j: nat)
    requires r < 8 && j < 7
    ensures |PERM1| == 8 && |PERM1[r]| == 7 && PERM1[r][j] % 8 != 0
  {
  }

  /** So two keys that differ in those bits only have the same schedule. */
  lemma ParityIgnored(key: seq<bit>, key': seq<bit>)
    requires |key| == |key'| == 64 && forall i :: 0 <= i < 64 && i % 8 != 7 ==> key[i] == key'[i]
    ensures GoodKeys(DES) && Schedule(DES, key) == Schedule(DES, key')
  {
    TablesAreGood();
    forall i: nat | i < 56 ensures key[Entry(PERM1, 7, 64, i)] == key'[Entry(PERM1, 7, 64, i)] {
      InRows(i, 7);
      ParityLeftOut(i / 7, i % 7);
    }
    assert Permuted(PERM1, 7, 64, key) == Permuted(PERM1, 7, 64, key');
  }

  /** The row holds every value of four bits, so each once. */
  predicate RowComplete(row: seq<int>)
  {
    |row| == 16 && forall v :: 0 <= v < 16 ==> v in row
  }

  /** All four rows do. */
  predicate BoxComplete(box: Table)
  {
    |box| == 4 && forall m :: 0 <= m < 4 ==> RowComplete(box[m])
  }

  lemma Box0()
    ensures BoxComplete(SBOX0)
  {
  }

  lemma Box1()
    ensures BoxComplete(SBOX1)
  {
  }

  lemma Box2()
    ensures BoxComplete(SBOX2)
  {
  }

  lemma Box3()
    ensures BoxComplete(SBOX3)
  {
  }

  lemma Box4()
    ensures BoxComplete(SBOX4)
  {
  }

  lemma Box5()
    ensures BoxComplete(SBOX5)
  {
  }

  lemma Box6()
    ensures BoxComplete(SBOX6)
  {
  }

  lemma Box7()
    ensures BoxComplete(SBOX7)
  {
  }

  /** In every row of every box each value occurs. */
  lemma BoxesComplete(j: nat)
    requires j < 8
    ensures BoxComplete(DES.sbox[j])
  {
    Box0();
    Box1();
    Box2();
    Box3();
    Box4();
    Box5();
    Box6();
    Box7();
  }
}
