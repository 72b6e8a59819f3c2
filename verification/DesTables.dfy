/**
 The tables of the DES network (smbdes.c; FIPS 46-3) have what the network needs.
 */
module DesTables {
  import opened Des

  // ---------------------------------------------------------------- the tables of the program

  const PERM1: Table := [
    [57, 49, 41, 33, 25, 17, 9],
    [1, 58, 50, 42, 34, 26, 18],
    [10, 2, 59, 51, 43, 35, 27],
    [19, 11, 3, 60, 52, 44, 36],
    [63, 55, 47, 39, 31, 23, 15],
    [7, 62, 54, 46, 38, 30, 22],
    [14, 6, 61, 53, 45, 37, 29],
    [21, 13, 5, 28, 20, 12, 4]]

  const PERM2: Table := [
    [14, 17, 11, 24, 1, 5],
    [3, 28, 15, 6, 21, 10],
    [23, 19, 12, 4, 26, 8],
    [16, 7, 27, 20, 13, 2],
    [41, 52, 31, 37, 47, 55],
    [30, 40, 51, 45, 33, 48],
    [44, 49, 39, 56, 34, 53],
    [46, 42, 50, 36, 29, 32]]

  const PERM3: Table := [
    [58, 50, 42, 34, 26, 18, 10, 2],
    [60, 52, 44, 36, 28, 20, 12, 4],
    [62, 54, 46, 38, 30, 22, 14, 6],
    [64, 56, 48, 40, 32, 24, 16, 8],
    [57, 49, 41, 33, 25, 17, 9, 1],
    [59, 51, 43, 35, 27, 19, 11, 3],
    [61, 53, 45, 37, 29, 21, 13, 5],
    [63, 55, 47, 39, 31, 23, 15, 7]]

  const PERM4: Table := [
    [32, 1, 2, 3, 4, 5],
    [4, 5, 6, 7, 8, 9],
    [8, 9, 10, 11, 12, 13],
    [12, 13, 14, 15, 16, 17],
    [16, 17, 18, 19, 20, 21],
    [20, 21, 22, 23, 24, 25],
    [24, 25, 26, 27, 28, 29],
    [28, 29, 30, 31, 32, 1]]

  const PERM5: Table := [
    [16, 7, 20, 21],
    [29, 12, 28, 17],
    [1, 15, 23, 26],
    [5, 18, 31, 10],
    [2, 8, 24, 14],
    [32, 27, 3, 9],
    [19, 13, 30, 6],
    [22, 11, 4, 25]]

  const PERM6: Table := [
    [40, 8, 48, 16, 56, 24, 64, 32],
    [39, 7, 47, 15, 55, 23, 63, 31],
    [38, 6, 46, 14, 54, 22, 62, 30],
    [37, 5, 45, 13, 53, 21, 61, 29],
    [36, 4, 44, 12, 52, 20, 60, 28],
    [35, 3, 43, 11, 51, 19, 59, 27],
    [34, 2, 42, 10, 50, 18, 58, 26],
    [33, 1, 41, 9, 49, 17, 57, 25]]

  const SBOX0: Table := [
    [14, 4, 13, 1, 2, 15, 11, 8, 3, 10, 6, 12, 5, 9, 0, 7],
    [0, 15, 7, 4, 14, 2, 13, 1, 10, 6, 12, 11, 9, 5, 3, 8],
    [4, 1, 14, 8, 13, 6, 2, 11, 15, 12, 9, 7, 3, 10, 5, 0],
    [15, 12, 8, 2, 4, 9, 1, 7, 5, 11, 3, 14, 10, 0, 6, 13]]

  const SBOX1: Table := [
    [15, 1, 8, 14, 6, 11, 3, 4, 9, 7, 2, 13, 12, 0, 5, 10],
    [3, 13, 4, 7, 15, 2, 8, 14, 12, 0, 1, 10, 6, 9, 11, 5],
    [0, 14, 7, 11, 10, 4, 13, 1, 5, 8, 12, 6, 9, 3, 2, 15],
    [13, 8, 10, 1, 3, 15, 4, 2, 11, 6, 7, 12, 0, 5, 14, 9]]

  const SBOX2: Table := [
    [10, 0, 9, 14, 6, 3, 15, 5, 1, 13, 12, 7, 11, 4, 2, 8],
    [13, 7, 0, 9, 3, 4, 6, 10, 2, 8, 5, 14, 12, 11, 15, 1],
    [13, 6, 4, 9, 8, 15, 3, 0, 11, 1, 2, 12, 5, 10, 14, 7],
    [1, 10, 13, 0, 6, 9, 8, 7, 4, 15, 14, 3, 11, 5, 2, 12]]

  const SBOX3: Table := [
    [7, 13, 14, 3, 0, 6, 9, 10, 1, 2, 8, 5, 11, 12, 4, 15],
    [13, 8, 11, 5, 6, 15, 0, 3, 4, 7, 2, 12, 1, 10, 14, 9],
    [10, 6, 9, 0, 12, 11, 7, 13, 15, 1, 3, 14, 5, 2, 8, 4],
    [3, 15, 0, 6, 10, 1, 13, 8, 9, 4, 5, 11, 12, 7, 2, 14]]

  const SBOX4: Table := [
    [2, 12, 4, 1, 7, 10, 11, 6, 8, 5, 3, 15, 13, 0, 14, 9],
    [14, 11, 2, 12, 4, 7, 13, 1, 5, 0, 15, 10, 3, 9, 8, 6],
    [4, 2, 1, 11, 10, 13, 7, 8, 15, 9, 12, 5, 6, 3, 0, 14],
    [11, 8, 12, 7, 1, 14, 2, 13, 6, 15, 0, 9, 10, 4, 5, 3]]

  const SBOX5: Table := [
    [12, 1, 10, 15, 9, 2, 6, 8, 0, 13, 3, 4, 14, 7, 5, 11],
    [10, 15, 4, 2, 7, 12, 9, 5, 6, 1, 13, 14, 0, 11, 3, 8],
    [9, 14, 15, 5, 2, 8, 12, 3, 7, 0, 4, 10, 1, 13, 11, 6],
    [4, 3, 2, 12, 9, 5, 15, 10, 11, 14, 1, 7, 6, 0, 8, 13]]

  const SBOX6: Table := [
    [4, 11, 2, 14, 15, 0, 8, 13, 3, 12, 9, 7, 5, 10, 6, 1],
    [13, 0, 11, 7, 4, 9, 1, 10, 14, 3, 5, 12, 2, 15, 8, 6],
    [1, 4, 11, 13, 12, 3, 7, 14, 10, 15, 6, 8, 0, 5, 9, 2],
    [6, 11, 13, 8, 1, 4, 10, 7, 9, 5, 0, 15, 14, 2, 3, 12]]

  const SBOX7: Table := [
    [13, 2, 8, 4, 6, 15, 11, 1, 10, 9, 3, 14, 5, 0, 12, 7],
    [1, 15, 13, 8, 10, 3, 7, 4, 12, 5, 6, 11, 0, 14, 9, 2],
    [7, 11, 4, 1, 9, 12, 14, 2, 0, 6, 10, 13, 15, 3, 5, 8],
    [2, 1, 14, 7, 4, 10, 8, 13, 15, 12, 9, 0, 3, 5, 6, 11]]

  const SHIFTS: seq<nat> := [1, 1, 2, 2, 2, 2, 2, 2, 1, 2, 2, 2, 2, 2, 2, 1]

  const DES := Tables(PERM1, PERM2, PERM3, PERM4, PERM5, PERM6, SHIFTS,
                      [SBOX0, SBOX1, SBOX2, SBOX3, SBOX4, SBOX5, SBOX6, SBOX7])

  lemma Selects1()
    ensures Selects(PERM1, 7, 64)
  {
  }

  lemma Selects2()
    ensures Selects(PERM2, 6, 56)
  {
  }

  lemma Selects3()
    ensures Selects(PERM3, 8, 64)
  {
  }

  lemma Selects4()
    ensures Selects(PERM4, 6, 32)
  {
  }

  lemma Selects5()
    ensures Selects(PERM5, 4, 32)
  {
  }

  lemma Selects6()
    ensures Selects(PERM6, 8, 64)
  {
  }

  /** Row `r` of one table, read through the other, counts up. */
  predicate RowUndone(p: Table, q: Table, r: nat)
    requires r < 8 && Selects(p, 8, 64) && Selects(q, 8, 64)
  {
    forall j :: 0 <= j < 8 ==> q[(p[r][j] - 1) / 8][(p[r][j] - 1) % 8] == 8 * r + j + 1
  }

  lemma RowsUndone(p: Table, q: Table)
    requires Selects(p, 8, 64) && Selects(q, 8, 64) && forall r: nat :: r < 8 ==> RowUndone(p, q, r)
    ensures Undoes(p, q)
  {
    forall i: nat | i < 64
      ensures Entry(q, 8, 64, Entry(p, 8, 64, i)) == i
    {
      assert RowUndone(p, q, i / 8);
    }
  }

  lemma InitialRows(r: nat)
    requires r < 8
    ensures Selects(PERM3, 8, 64) && Selects(PERM6, 8, 64) && RowUndone(PERM3, PERM6, r)
  {
    Selects3();
    Selects6();
    if r < 4 {
      InitialRowsLow(r);
    } else {
      InitialRowsHigh(r);
    }
  }

  lemma InitialRowsLow(r: nat)
    requires r < 4
    ensures forall j :: 0 <= j < 8 ==> PERM6[(PERM3[r][j] - 1) / 8][(PERM3[r][j] - 1) % 8] == 8 * r + j + 1
  {
  }

  lemma InitialRowsHigh(r: nat)
    requires 4 <= r < 8
    ensures forall j :: 0 <= j < 8 ==> PERM6[(PERM3[r][j] - 1) / 8][(PERM3[r][j] - 1) % 8] == 8 * r + j + 1
  {
  }

  lemma FinalRows(r: nat)
    requires r < 8
    ensures Selects(PERM3, 8, 64) && Selects(PERM6, 8, 64) && RowUndone(PERM6, PERM3, r)
  {
    Selects3();
    Selects6();
    if r < 4 {
      FinalRowsLow(r);
    } else {
      FinalRowsHigh(r);
    }
  }

  lemma FinalRowsLow(r: nat)
    requires r < 4
    ensures forall j :: 0 <= j < 8 ==> PERM3[(PERM6[r][j] - 1) / 8][(PERM6[r][j] - 1) % 8] == 8 * r + j + 1
  {
  }

  lemma FinalRowsHigh(r: nat)
    requires 4 <= r < 8
    ensures forall j :: 0 <= j < 8 ==> PERM3[(PERM6[r][j] - 1) / 8][(PERM6[r][j] - 1) % 8] == 8 * r + j + 1
  {
  }

  /** The initial and the final permutation undo each other. */
  lemma TablesUndone()
    ensures Selects(PERM3, 8, 64) && Selects(PERM6, 8, 64) && Undoes(PERM3, PERM6) && Undoes(PERM6, PERM3)
  {
    Selects3();
    Selects6();
    forall r: nat | r < 8
      ensures RowUndone(PERM3, PERM6, r) && RowUndone(PERM6, PERM3, r)
    {
      InitialRows(r);
      FinalRows(r);
    }
    RowsUndone(PERM3, PERM6);
    RowsUndone(PERM6, PERM3);
  }

  /** Over sixteen rounds the key halves turn once around. */
  lemma TotalShift()
    ensures Total(SHIFTS, 16) == 28
  {
    assert Total(SHIFTS, 4) == 6;
    assert Total(SHIFTS, 8) == 14;
    assert Total(SHIFTS, 12) == 21;
  }

  lemma Boxes()
    ensures forall j :: 0 <= j < 8 ==> Shaped(DES.sbox[j], 4, 16)
  {
  }

  lemma TablesAreGood()
    ensures Good(DES)
  {
    Selects1();
    Selects2();
    TablesUndone();
    Selects4();
    Selects5();
    TotalShift();
    Boxes();
  }

  /** With the tables of the program, for every key: equal results come from equal blocks, and every
      block is a result. */
  lemma HashIsPermutation(key: seq<bit>, x: seq<bit>, y: seq<bit>)
    requires |key| == |x| == |y| == 64
    ensures Good(DES)
    ensures Cipher(DES, Schedule(DES, key), x) == Cipher(DES, Schedule(DES, key), y) ==> x == y
    ensures Cipher(DES, Schedule(DES, key), Cipher(DES, Reversed(Schedule(DES, key)), y)) == y
  {
    TablesAreGood();
    CipherIsPermutation(DES, Schedule(DES, key), x, y);
  }
}
