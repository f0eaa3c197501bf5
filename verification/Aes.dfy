/** AES-128 block encryption and decryption. */
module Aes {
  import opened AesTables
  import opened AesColumns
  import opened Cbc

  // ----- round steps as functions

  function SubBytes(s: Bytes): (r: Bytes)
    ensures |r| == |s|
  {
    seq(|s|, i requires 0 <= i < |s| => Sbox(s[i]))
  }

  function InvSubBytes(s: Bytes): (r: Bytes)
    ensures |r| == |s|
  {
    seq(|s|, i requires 0 <= i < |s| => InvSbox(s[i]))
  }

  function ShiftRows(s: Bytes): (r: Bytes)
    requires |s| == 16
    ensures |r| == 16
  {
    [s[0], s[5], s[10], s[15], s[4], s[9], s[14], s[3], s[8], s[13], s[2], s[7], s[12], s[1], s[6], s[11]]
  }

  function InvShiftRows(s: Bytes): (r: Bytes)
    requires |s| == 16
    ensures |r| == 16
  {
    [s[0], s[13], s[10], s[7], s[4], s[1], s[14], s[11], s[8], s[5], s[2], s[15], s[12], s[9], s[6], s[3]]
  }

  function ColumnOf(s: Bytes, i: nat): Column
    requires |s| == 16 && i < 4
  {
    Column(s[4 * i], s[4 * i + 1], s[4 * i + 2], s[4 * i + 3])
  }

  function Bytes4(c: Column): (r: Bytes)
    ensures |r| == 4
  {
    [c.a, c.b, c.d, c.e]
  }

  function OnColumns(f: Column -> Column, s: Bytes): (r: Bytes)
    requires |s| == 16
    ensures |r| == 16
  {
    Bytes4(f(ColumnOf(s, 0))) + Bytes4(f(ColumnOf(s, 1))) + Bytes4(f(ColumnOf(s, 2))) + Bytes4(f(ColumnOf(s, 3)))
  }

  function MixColumns(s: Bytes): (r: Bytes)
    requires |s| == 16
    ensures |r| == 16
  {
    OnColumns(MixColumn, s)
  }

  function InvMixColumns(s: Bytes): (r: Bytes)
    requires |s| == 16
    ensures |r| == 16
  {
    OnColumns(InvMixColumn, s)
  }

  // ----- each step has an inverse

  lemma {:induction false} SubInverse(s: Bytes)
    ensures InvSubBytes(SubBytes(s)) == s && SubBytes(InvSubBytes(s)) == s
  {
    hide Sbox, InvSbox;
    forall i | 0 <= i < |s| ensures InvSbox(Sbox(s[i])) == s[i] && Sbox(InvSbox(s[i])) == s[i] {
      SboxInverse(s[i]);
    }
  }

  lemma {:induction false} ShiftInverse(s: Bytes)
    requires |s| == 16
    ensures InvShiftRows(ShiftRows(s)) == s && ShiftRows(InvShiftRows(s)) == s
  {
  }

  lemma {:induction false} ColumnsOf(f: Column -> Column, s: Bytes)
    requires |s| == 16
    ensures forall i | 0 <= i < 4 :: ColumnOf(OnColumns(f, s), i) == f(ColumnOf(s, i))
  {
  }

  lemma {:induction false} SameColumns(s: Bytes, t: Bytes)
    requires |s| == |t| == 16 && forall i | 0 <= i < 4 :: ColumnOf(s, i) == ColumnOf(t, i)
    ensures s == t
  {
    assert ColumnOf(s, 0) == ColumnOf(t, 0) && ColumnOf(s, 1) == ColumnOf(t, 1);
    assert ColumnOf(s, 2) == ColumnOf(t, 2) && ColumnOf(s, 3) == ColumnOf(t, 3);
    forall k | 0 <= k < 16 ensures s[k] == t[k] {
      assert k == 4 * (k / 4) + k % 4;
    }
  }

  lemma {:induction false} MixInverse(s: Bytes)
    requires |s| == 16
    ensures InvMixColumns(MixColumns(s)) == s && MixColumns(InvMixColumns(s)) == s
  {
    hide MixColumn, InvMixColumn, ColumnOf, OnColumns;
    ColumnsOf(MixColumn, s);
    ColumnsOf(InvMixColumn, MixColumns(s));
    ColumnsOf(InvMixColumn, s);
    ColumnsOf(MixColumn, InvMixColumns(s));
    forall i | 0 <= i < 4
      ensures ColumnOf(InvMixColumns(MixColumns(s)), i) == ColumnOf(s, i)
      ensures ColumnOf(MixColumns(InvMixColumns(s)), i) == ColumnOf(s, i)
    {
      InvMixOfMix(ColumnOf(s, i));
      MixOfInvMix(ColumnOf(s, i));
    }
    SameColumns(InvMixColumns(MixColumns(s)), s);
    SameColumns(MixColumns(InvMixColumns(s)), s);
  }

  // ----- blocks

  /** Eleven round keys of sixteen bytes. */
  function RoundKey(rk: Bytes, r: nat): (k: Bytes)
    requires |rk| == 176 && r <= 10
    ensures |k| == 16
  {
    rk[16 * r..16 * r + 16]
  }

  /** The rounds between the first and the last key addition that mix columns: 9. */
  function MixRounds(rk: Bytes): (n: nat)
    requires |rk| == 176
    ensures n == 9
  {
    |rk| / 16 - 2
  }

  /** The state after round r of encryption. */
  function EncRounds(rk: Bytes, s: Bytes, r: nat): (t: Bytes)
    requires |rk| == 176 && |s| == 16 && r <= 9
    ensures |t| == 16
  {
    if r == 0 then XorAll(s, RoundKey(rk, 0))
    else XorAll(MixColumns(ShiftRows(SubBytes(EncRounds(rk, s, r - 1)))), RoundKey(rk, r))
  }

  function Encrypt(rk: Bytes, s: Bytes): (t: Bytes)
    requires |rk| == 176 && |s| == 16
    ensures |t| == 16
  {
    XorAll(ShiftRows(SubBytes(EncRounds(rk, s, MixRounds(rk)))), RoundKey(rk, 10))
  }

  /** The state after k of the decryption rounds that unmix columns. */
  function DecRounds(rk: Bytes, t: Bytes, k: nat): (s: Bytes)
    requires |rk| == 176 && |t| == 16 && k <= 9
    ensures |s| == 16
  {
    if k == 0 then XorAll(t, RoundKey(rk, 10))
    else InvMixColumns(XorAll(InvSubBytes(InvShiftRows(DecRounds(rk, t, k - 1))), RoundKey(rk, 10 - k)))
  }

  function Decrypt(rk: Bytes, t: Bytes): (s: Bytes)
    requires |rk| == 176 && |t| == 16
    ensures |s| == 16
  {
    XorAll(InvSubBytes(InvShiftRows(DecRounds(rk, t, MixRounds(rk)))), RoundKey(rk, 0))
  }

  /** Decryption passes through the states of encryption in reverse. */
  lemma {:induction false} DecryptMirrors(rk: Bytes, s: Bytes, k: nat)
    requires |rk| == 176 && |s| == 16 && k <= 9
    ensures DecRounds(rk, Encrypt(rk, s), k) == ShiftRows(SubBytes(EncRounds(rk, s, 9 - k)))
  {
    hide XorAll, SubBytes, InvSubBytes, ShiftRows, InvShiftRows, MixColumns, InvMixColumns, RoundKey;
    var e := EncRounds(rk, s, 9 - k);
    if k == 0 {
      XorTwice(ShiftRows(SubBytes(e)), RoundKey(rk, 10));
    } else {
      DecryptMirrors(rk, s, k - 1);
      var x := ShiftRows(SubBytes(e));
      var next := EncRounds(rk, s, 10 - k);
      ShiftInverse(SubBytes(next));
      SubInverse(next);
      XorTwice(MixColumns(x), RoundKey(rk, 10 - k));
      MixInverse(x);
    }
  }

  lemma {:induction false} DecryptOfEncrypt(rk: Bytes, s: Bytes)
    requires |rk| == 176 && |s| == 16
    ensures Decrypt(rk, Encrypt(rk, s)) == s
  {
    hide XorAll, SubBytes, InvSubBytes, ShiftRows, InvShiftRows, MixColumns, InvMixColumns, RoundKey;
    DecryptMirrors(rk, s, MixRounds(rk));
    var e := EncRounds(rk, s, 0);
    ShiftInverse(SubBytes(e));
    SubInverse(e);
    XorTwice(s, RoundKey(rk, 0));
  }

  /** Encryption passes through the states of decryption in reverse. */
  lemma {:induction false} EncryptMirrors(rk: Bytes, t: Bytes, r: nat)
    requires |rk| == 176 && |t| == 16 && r <= 9
    ensures EncRounds(rk, Decrypt(rk, t), r) == InvSubBytes(InvShiftRows(DecRounds(rk, t, 9 - r)))
  {
    hide XorAll, SubBytes, InvSubBytes, ShiftRows, InvShiftRows, MixColumns, InvMixColumns, RoundKey;
    var d := DecRounds(rk, t, 9 - r);
    if r == 0 {
      XorTwice(InvSubBytes(InvShiftRows(d)), RoundKey(rk, 0));
    } else {
      EncryptMirrors(rk, t, r - 1);
      var before := DecRounds(rk, t, 10 - r);
      var y := XorAll(InvSubBytes(InvShiftRows(d)), RoundKey(rk, r));
      SubInverse(InvShiftRows(before));
      ShiftInverse(before);
      MixInverse(y);
      XorTwice(InvSubBytes(InvShiftRows(d)), RoundKey(rk, r));
    }
  }

  lemma {:induction false} EncryptOfDecrypt(rk: Bytes, t: Bytes)
    requires |rk| == 176 && |t| == 16
    ensures Encrypt(rk, Decrypt(rk, t)) == t
  {
    hide XorAll, SubBytes, InvSubBytes, ShiftRows, InvShiftRows, MixColumns, InvMixColumns, RoundKey;
    EncryptMirrors(rk, t, MixRounds(rk));
    var d := DecRounds(rk, t, 0);
    SubInverse(InvShiftRows(d));
    ShiftInverse(d);
    XorTwice(t, RoundKey(rk, 10));
  }

  /** AES-128 with given round keys, as a block cipher. */
  function Aes128(rk: Bytes): Cipher
    requires |rk| == 176
  {
    Cipher(x => if |x| == 16 then Encrypt(rk, x) else x, x => if |x| == 16 then Decrypt(rk, x) else x)
  }

  /** Encryption and decryption of a block are mutual inverses, for every key. */
  lemma {:induction false} AesIsCipher(rk: Bytes)
    requires |rk| == 176
    ensures IsCipher(Aes128(rk))
  {
    hide Encrypt, Decrypt;
    forall x: Bytes | |x| == 16 ensures Works(Aes128(rk), x) {
      DecryptOfEncrypt(rk, x);
      EncryptOfDecrypt(rk, x);
    }
  }
}
