/** AES-128 as it works on its buffers: in-place round steps, key expansion, and the chaining loops. */
module AesCode {
  import opened AesTables
  import opened AesColumns
  import opened Cbc
  import opened Aes

  const RCON: Bytes := [0x01, 0x02, 0x04, 0x08, 0x10, 0x20, 0x40, 0x80, 0x1B, 0x36]

  /** Word i of an expanded key. */
  function KeyWord(rk: Bytes, i: nat): Bytes
    requires 4 * i + 4 <= |rk|
  {
    rk[4 * i..4 * i + 4]
  }

  /** The word added to word i - 4 (section 5.2 of FIPS 197). */
  function Temp(rk: Bytes, i: nat): (t: Bytes)
    requires 4 <= i < 44 && 4 * i <= |rk|
    ensures |t| == 4
  {
    var t := KeyWord(rk, i - 1);
    if i % 4 == 0 then RotatedWord(t, RCON[i / 4 - 1]) else t
  }

  function RotatedWord(t: Bytes, k: bv8): (r: Bytes)
    requires |t| == 4
    ensures |r| == 4
  {
    [Xor(Sbox(t[1]), k), Sbox(t[2]), Sbox(t[3]), Sbox(t[0])]
  }

  ghost predicate Expanded(rk: Bytes, key: Bytes, n: nat) {
    && 16 <= |key| <= |rk| && |rk| == 4 * n && n <= 44
    && rk[..16] == key[..16]
    && forall i | 4 <= i < n :: WordOk(rk, i)
  }

  ghost predicate WordOk(rk: Bytes, i: nat) {
    4 <= i < 44 && 4 * i + 4 <= |rk| && KeyWord(rk, i) == XorAll(KeyWord(rk, i - 4), Temp(rk, i))
  }

  /** key_expansion: the key schedule of section 5.2 of FIPS 197. */
  method KeyExpansion(key: Bytes) returns (rk: Bytes)
    requires |key| == 16
    ensures |rk| == 176 && Expanded(rk, key, 44)
  {
    hide Sbox, XorAll, WordOk, KeyWord;
    rk := key;
    var i := 4;
    while i < 44
      invariant 4 <= i <= 44 && Expanded(rk, key, i)
    {
      var t := KeyWord(rk, i - 1);
      WordLength(rk, i - 1);
      WordLength(rk, i - 4);
      if i % 4 == 0 {
        var tmp := t[0];
        t := [Xor(Sbox(t[1]), RCON[i / 4 - 1]), Sbox(t[2]), Sbox(t[3]), Sbox(tmp)];
      }
      ghost var old_ := rk;
      rk := rk + XorAll(KeyWord(rk, i - 4), t);
      Extended(old_, rk, key, i, t);
      i := i + 1;
    }
  }

  lemma {:induction false} WordLength(rk: Bytes, i: nat)
    requires 4 * i + 4 <= |rk|
    ensures |KeyWord(rk, i)| == 4
  {
  }

  lemma {:induction false} Extended(rk: Bytes, rk': Bytes, key: Bytes, i: nat, t: Bytes)
    requires 4 <= i < 44 && Expanded(rk, key, i) && t == Temp(rk, i) && |KeyWord(rk, i - 4)| == 4
    requires rk' == rk + XorAll(KeyWord(rk, i - 4), t)
    ensures Expanded(rk', key, i + 1)
  {
    assert rk'[..|rk|] == rk;
    forall j | 4 <= j < i + 1 ensures WordOk(rk', j) {
      if j < i {
        assert WordOk(rk, j);
        WordStays(rk, rk', j);
      } else {
        NewWord(rk, rk', i, t);
      }
    }
  }

  lemma {:induction false} TempKept(rk: Bytes, rk': Bytes, j: nat)
    requires 4 <= j < 44 && 4 * j <= |rk| <= |rk'| && rk'[..|rk|] == rk
    ensures Temp(rk', j) == Temp(rk, j)
  {
    hide Sbox;
    WordKept(rk, rk', j - 1);
    hide KeyWord;
  }

  lemma {:induction false} WordStays(rk: Bytes, rk': Bytes, j: nat)
    requires WordOk(rk, j) && |rk| <= |rk'| && rk'[..|rk|] == rk
    ensures WordOk(rk', j)
  {
    hide Sbox, XorAll, Temp;
    WordKept(rk, rk', j - 4);
    WordKept(rk, rk', j);
    TempKept(rk, rk', j);
    hide KeyWord;
  }

  lemma {:induction false} NewWord(rk: Bytes, rk': Bytes, i: nat, t: Bytes)
    requires 4 <= i < 44 && |rk| == 4 * i && t == Temp(rk, i) && |KeyWord(rk, i - 4)| == 4
    requires rk' == rk + XorAll(KeyWord(rk, i - 4), t)
    ensures WordOk(rk', i)
  {
    hide Sbox, Temp;
    assert rk'[..|rk|] == rk;
    assert KeyWord(rk', i) == XorAll(KeyWord(rk, i - 4), t);
    hide XorAll;
    WordKept(rk, rk', i - 4);
    TempKept(rk, rk', i);
    hide KeyWord;
  }

  lemma {:induction false} WordKept(rk: Bytes, rk': Bytes, j: nat)
    requires 4 * j + 4 <= |rk| <= |rk'| && rk'[..|rk|] == rk
    ensures KeyWord(rk', j) == KeyWord(rk, j)
  {
    assert rk'[4 * j..4 * j + 4] == rk'[..|rk|][4 * j..4 * j + 4];
  }

  // ----- round steps, in place

  method AddRoundKey(s: array<bv8>, k: Bytes)
    requires s.Length == |k| == 16
    modifies s
    ensures s[..] == XorAll(old(s[..]), k)
  {
    var i := 0;
    while i < 16
      invariant 0 <= i <= 16
      invariant forall j | 0 <= j < i :: s[j] == Xor(old(s[j]), k[j])
      invariant forall j | i <= j < 16 :: s[j] == old(s[j])
    {
      s[i] := Xor(s[i], k[i]);
      i := i + 1;
    }
  }

  method SubBytesInPlace(s: array<bv8>)
    requires s.Length == 16
    modifies s
    ensures s[..] == SubBytes(old(s[..]))
  {
    hide Sbox;
    var i := 0;
    while i < 16
      invariant 0 <= i <= 16
      invariant forall j | 0 <= j < i :: s[j] == Sbox(old(s[j]))
      invariant forall j | i <= j < 16 :: s[j] == old(s[j])
    {
      s[i] := Sbox(s[i]);
      i := i + 1;
    }
  }

  method InvSubBytesInPlace(s: array<bv8>)
    requires s.Length == 16
    modifies s
    ensures s[..] == InvSubBytes(old(s[..]))
  {
    hide InvSbox;
    var i := 0;
    while i < 16
      invariant 0 <= i <= 16
      invariant forall j | 0 <= j < i :: s[j] == InvSbox(old(s[j]))
      invariant forall j | i <= j < 16 :: s[j] == old(s[j])
    {
      s[i] := InvSbox(s[i]);
      i := i + 1;
    }
  }

  /** Moves three bytes one place down the list of positions and the first to the last. */
  method Rotate(s: array<bv8>, a: nat, b: nat, c: nat, d: nat)
    requires s.Length == 16 && a < 16 && b < 16 && c < 16 && d < 16
    requires a != b && a != c && a != d && b != c && b != d && c != d
    modifies s
    ensures s[..] == old(s[..])[a := old(s[b])][b := old(s[c])][c := old(s[d])][d := old(s[a])]
  {
    var t := s[a];
    s[a] := s[b];
    s[b] := s[c];
    s[c] := s[d];
    s[d] := t;
  }

  method Swap(s: array<bv8>, a: nat, b: nat)
    requires s.Length == 16 && a < 16 && b < 16 && a != b
    modifies s
    ensures s[..] == old(s[..])[a := old(s[b])][b := old(s[a])]
  {
    var t := s[a];
    s[a] := s[b];
    s[b] := t;
  }

  method ShiftRowsInPlace(s: array<bv8>)
    requires s.Length == 16
    modifies s
    ensures s[..] == ShiftRows(old(s[..]))
  {
    ghost var s0 := s[..];
    Rotate(s, 1, 5, 9, 13);
    ghost var s1 := s[..];
    Swap(s, 2, 10);
    ghost var s2 := s[..];
    Swap(s, 6, 14);
    ghost var s3 := s[..];
    Rotate(s, 15, 11, 7, 3);
    RowsShifted(s0, s1, s2, s3, s[..]);
  }

  lemma {:induction false} RowsShifted(s0: Bytes, s1: Bytes, s2: Bytes, s3: Bytes, s4: Bytes)
    requires |s0| == 16 && s1 == s0[1 := s0[5]][5 := s0[9]][9 := s0[13]][13 := s0[1]]
    requires s2 == s1[2 := s1[10]][10 := s1[2]] && s3 == s2[6 := s2[14]][14 := s2[6]]
    requires s4 == s3[15 := s3[11]][11 := s3[7]][7 := s3[3]][3 := s3[15]]
    ensures s4 == ShiftRows(s0)
  {
  }

  method InvShiftRowsInPlace(s: array<bv8>)
    requires s.Length == 16
    modifies s
    ensures s[..] == InvShiftRows(old(s[..]))
  {
    ghost var s0 := s[..];
    Rotate(s, 13, 9, 5, 1);
    ghost var s1 := s[..];
    Swap(s, 2, 10);
    ghost var s2 := s[..];
    Swap(s, 6, 14);
    ghost var s3 := s[..];
    Rotate(s, 3, 7, 11, 15);
    RowsUnshifted(s0, s1, s2, s3, s[..]);
  }

  lemma {:induction false} RowsUnshifted(s0: Bytes, s1: Bytes, s2: Bytes, s3: Bytes, s4: Bytes)
    requires |s0| == 16 && s1 == s0[13 := s0[9]][9 := s0[5]][5 := s0[1]][1 := s0[13]]
    requires s2 == s1[2 := s1[10]][10 := s1[2]] && s3 == s2[6 := s2[14]][14 := s2[6]]
    requires s4 == s3[3 := s3[7]][7 := s3[11]][11 := s3[15]][15 := s3[3]]
    ensures s4 == InvShiftRows(s0)
  {
  }

  /** The column's bytes as the code computes them, from the sum of all four. */
  lemma {:induction false} SameSum(a: bv8, b: bv8, d: bv8, e: bv8, p: bv8)
    ensures var x := Sum4(a, b, d, e);
      && Xor(a, Xor(x, p)) == Xor(Xor(a, x), p) && Sum4(b, d, e, a) == x && Sum4(d, e, a, b) == x
      && Sum4(e, a, b, d) == x
  {
    hide Xor;
    Assoc(a, Sum4(a, b, d, e), p);
    Rotated(a, b, d, e);
    Rotated(b, d, e, a);
    Rotated(d, e, a, b);
  }

  lemma {:induction false} Rotated(a: bv8, b: bv8, d: bv8, e: bv8)
    ensures Sum4(b, d, e, a) == Sum4(a, b, d, e)
  {
    hide Xor;
    Comm(Xor(Xor(b, d), e), a);
    Assoc(a, Xor(b, d), e);
    Assoc(a, b, d);
  }

  /** The bytes before column i are done, the others are as before. */
  ghost predicate ColumnsDone(f: Column -> Column, s: Bytes, t: Bytes, i: nat) {
    && |s| == |t| == 16 && i <= 4
    && (forall j | 0 <= j < i :: ColumnOf(t, j) == f(ColumnOf(s, j)))
    && (forall j | i <= j < 4 :: ColumnOf(t, j) == ColumnOf(s, j))
  }

  lemma {:induction false} ColumnPut(f: Column -> Column, s: Bytes, t: Bytes, t': Bytes, i: nat)
    requires i < 4 && ColumnsDone(f, s, t, i) && |t'| == 16 && ColumnOf(t', i) == f(ColumnOf(s, i))
    requires forall k | 0 <= k < 16 && !(4 * i <= k < 4 * i + 4) :: t'[k] == t[k]
    ensures ColumnsDone(f, s, t', i + 1)
  {
    forall j | 0 <= j < 4 && j != i ensures ColumnOf(t', j) == ColumnOf(t, j) {
    }
  }

  lemma {:induction false} AllColumns(f: Column -> Column, s: Bytes, t: Bytes)
    requires ColumnsDone(f, s, t, 4)
    ensures t == OnColumns(f, s)
  {
    hide ColumnOf, OnColumns;
    ColumnsOf(f, s);
    SameColumns(t, OnColumns(f, s));
  }

  method MixColumnsInPlace(s: array<bv8>)
    requires s.Length == 16
    modifies s
    ensures s[..] == MixColumns(old(s[..]))
  {
    hide Xor, Xtime, Sum4;
    ghost var s0 := s[..];
    var i := 0;
    while i < 4
      invariant 0 <= i <= 4 && ColumnsDone(MixColumn, s0, s[..], i)
    {
      ghost var before := s[..];
      MixColumnAt(s, i);
      assert ColumnOf(before, i) == ColumnOf(s0, i);
      ColumnPut(MixColumn, s0, before, s[..], i);
      i := i + 1;
    }
    AllColumns(MixColumn, s0, s[..]);
  }

  method MixColumnAt(s: array<bv8>, i: nat)
    requires s.Length == 16 && i < 4
    modifies s
    ensures ColumnOf(s[..], i) == MixColumn(ColumnOf(old(s[..]), i))
    ensures forall k | 0 <= k < 16 && !(4 * i <= k < 4 * i + 4) :: s[k] == old(s[k])
  {
    hide Xor, Xtime;
    var c := i * 4;
    var a, b, d, e := s[c], s[c + 1], s[c + 2], s[c + 3];
    var x := Sum4(a, b, d, e);
    SameSum(a, b, d, e, Xtime(Xor(a, b)));
    SameSum(b, d, e, a, Xtime(Xor(b, d)));
    SameSum(d, e, a, b, Xtime(Xor(d, e)));
    SameSum(e, a, b, d, Xtime(Xor(e, a)));
    s[c] := Xor(s[c], Xor(x, Xtime(Xor(a, b))));
    s[c + 1] := Xor(s[c + 1], Xor(x, Xtime(Xor(b, d))));
    s[c + 2] := Xor(s[c + 2], Xor(x, Xtime(Xor(d, e))));
    s[c + 3] := Xor(s[c + 3], Xor(x, Xtime(Xor(e, a))));
  }

  /** The pre-multiplication of every column, then the mix. */
  method InvMixColumnsInPlace(s: array<bv8>)
    requires s.Length == 16
    modifies s
    ensures s[..] == InvMixColumns(old(s[..]))
  {
    hide Xor, Xtime, Quad, Mixed;
    ghost var s0 := s[..];
    var i := 0;
    while i < 4
      invariant 0 <= i <= 4 && ColumnsDone(Premultiply, s0, s[..], i)
    {
      ghost var before := s[..];
      PremultiplyAt(s, i);
      assert ColumnOf(before, i) == ColumnOf(s0, i);
      ColumnPut(Premultiply, s0, before, s[..], i);
      i := i + 1;
    }
    ghost var s1 := s[..];
    MixColumnsInPlace(s);
    ColumnsOf(MixColumn, s1);
    ColumnsOf(InvMixColumn, s0);
    hide OnColumns, ColumnOf, MixColumn, Premultiply;
    SameColumns(s[..], InvMixColumns(s0));
  }

  method PremultiplyAt(s: array<bv8>, i: nat)
    requires s.Length == 16 && i < 4
    modifies s
    ensures ColumnOf(s[..], i) == Premultiply(ColumnOf(old(s[..]), i))
    ensures forall k | 0 <= k < 16 && !(4 * i <= k < 4 * i + 4) :: s[k] == old(s[k])
  {
    hide Xor, Xtime;
    var c := i * 4;
    var a, b, d, e := s[c], s[c + 1], s[c + 2], s[c + 3];
    var u := Xtime(Xtime(Xor(a, d)));
    var v := Xtime(Xtime(Xor(b, e)));
    s[c] := Xor(s[c], u);
    s[c + 1] := Xor(s[c + 1], v);
    s[c + 2] := Xor(s[c + 2], u);
    s[c + 3] := Xor(s[c + 3], v);
  }

  // ----- blocks

  method EncryptBlock(rk: Bytes, input: Bytes) returns (out: Bytes)
    requires |rk| == 176 && |input| == 16
    ensures |out| == 16 && out == Encrypt(rk, input)
  {
    hide XorAll, SubBytes, ShiftRows, MixColumns;
    var s := new bv8[16](i requires 0 <= i < 16 => input[i]);
    assert s[..] == input;
    AddRoundKey(s, RoundKey(rk, 0));
    var r := 1;
    while r < 10
      invariant 1 <= r <= 10 && s[..] == EncRounds(rk, input, r - 1)
    {
      SubBytesInPlace(s);
      ShiftRowsInPlace(s);
      MixColumnsInPlace(s);
      AddRoundKey(s, RoundKey(rk, r));
      r := r + 1;
    }
    SubBytesInPlace(s);
    ShiftRowsInPlace(s);
    AddRoundKey(s, RoundKey(rk, 10));
    out := s[..];
  }

  method DecryptBlock(rk: Bytes, input: Bytes) returns (out: Bytes)
    requires |rk| == 176 && |input| == 16
    ensures |out| == 16 && out == Decrypt(rk, input)
  {
    hide XorAll, InvSubBytes, InvShiftRows, InvMixColumns;
    var s := new bv8[16](i requires 0 <= i < 16 => input[i]);
    assert s[..] == input;
    AddRoundKey(s, RoundKey(rk, 10));
    var r := 9;
    while r >= 1
      invariant 0 <= r <= 9 && s[..] == DecRounds(rk, input, 9 - r)
    {
      InvShiftRowsInPlace(s);
      InvSubBytesInPlace(s);
      AddRoundKey(s, RoundKey(rk, r));
      InvMixColumnsInPlace(s);
      r := r - 1;
    }
    InvShiftRowsInPlace(s);
    InvSubBytesInPlace(s);
    AddRoundKey(s, RoundKey(rk, 0));
    out := s[..];
  }

  // ----- chaining

  /** aes128_cbc_decrypt, with separate input and output. */
  method CbcDecryptBuffer(rk: Bytes, iv: Bytes, input: Bytes) returns (out: Bytes)
    requires |rk| == 176 && |iv| == 16 && |input| % 16 == 0
    ensures IsCipher(Aes128(rk)) && out == CbcDecrypt(Aes128(rk), iv, input)
  {
    hide Encrypt, Decrypt, XorAll, CbcDecrypt, IsCipher;
    AesIsCipher(rk);
    ghost var c := Aes128(rk);
    out := [];
    var prev := iv;
    var i := 0;
    assert input[0..] == input;
    while i < |input|
      invariant 0 <= i <= |input| && i % 16 == 0 && |prev| == 16 && |input[i..]| % 16 == 0
      invariant CbcDecrypt(c, iv, input) == out + CbcDecrypt(c, prev, input[i..])
    {
      var block := input[i..i + 16];
      DecryptFront(c, prev, input, i);
      var tmp := DecryptBlock(rk, block);
      AssocBytes(out, XorAll(tmp, prev), CbcDecrypt(c, block, input[i + 16..]));
      out := out + XorAll(tmp, prev);
      prev := block;
      i := i + 16;
    }
    NoBlocks(c, prev, input[i..]);
    assert out + [] == out;
  }

  /** aes128_cbc_encrypt */
  method CbcEncryptBuffer(rk: Bytes, iv: Bytes, input: Bytes) returns (out: Bytes)
    requires |rk| == 176 && |iv| == 16 && |input| % 16 == 0
    ensures IsCipher(Aes128(rk)) && out == CbcEncrypt(Aes128(rk), iv, input)
  {
    hide Encrypt, Decrypt, XorAll, CbcEncrypt, IsCipher;
    AesIsCipher(rk);
    ghost var c := Aes128(rk);
    out := [];
    var chain := iv;
    var i := 0;
    assert input[0..] == input;
    while i < |input|
      invariant 0 <= i <= |input| && i % 16 == 0 && |chain| == 16 && |input[i..]| % 16 == 0
      invariant CbcEncrypt(c, iv, input) == out + CbcEncrypt(c, chain, input[i..])
    {
      var tmp := XorAll(input[i..i + 16], chain);
      EncryptFront(c, chain, input, i);
      var y := EncryptBlock(rk, tmp);
      AssocBytes(out, y, CbcEncrypt(c, y, input[i + 16..]));
      out := out + y;
      chain := y;
      i := i + 16;
    }
    NoBlocks(c, chain, input[i..]);
    assert out + [] == out;
  }

  lemma {:induction false} AssocBytes(a: Bytes, b: Bytes, c: Bytes)
    ensures a + (b + c) == (a + b) + c
  {
  }

  lemma {:induction false} NoBlocks(c: Cipher, iv: Bytes, s: Bytes)
    requires IsCipher(c) && |iv| == 16 && s == []
    ensures CbcDecrypt(c, iv, s) == [] && CbcEncrypt(c, iv, s) == []
  {
  }
}
