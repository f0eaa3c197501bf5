/** AES-128 as FIPS 197 and CBC as SP 800-38A define them, byte by byte, and that the functions of the program are
    theirs. */
module AesStandard {
  import opened AesTables
  import opened AesColumns
  import opened Cbc
  import opened Aes
  import opened AesCode

  // ----- the field GF(2^8), section 4 of FIPS 197

  /** Multiplication by x is a shift, reduced by x^8 + x^4 + x^3 + x + 1. */
  lemma {:induction false} XtimeReduces(a: bv8)
    ensures Xtime(a) as bv16 == if a & 0x80 == 0 then (a as bv16) << 1 else ((a as bv16) << 1) ^ 0x11B
  {
  }

  function Term(a: bv8, b: bv8, power: bv8): bv8 {
    if b & power != 0 then a else 0
  }

  /** The product: a times each power of x that b has. */
  function Mul(a: bv8, b: bv8): bv8 {
    var a1 := Xtime(a);
    var a2 := Xtime(a1);
    var a3 := Xtime(a2);
    var a4 := Xtime(a3);
    var a5 := Xtime(a4);
    var a6 := Xtime(a5);
    var a7 := Xtime(a6);
    Term(a, b, 1) ^ Term(a1, b, 2) ^ Term(a2, b, 4) ^ Term(a3, b, 8)
    ^ Term(a4, b, 16) ^ Term(a5, b, 32) ^ Term(a6, b, 64) ^ Term(a7, b, 128)
  }

  lemma {:induction false} Divisors0(x: bv8, w: bv8)
    requires x >> 6 == 0 && x != 0 && Mul(x, w) == 0
    ensures w == 0
  {
    if x & 1 == 0 {
      if x & 2 == 0 {
      }
    } else if x & 2 == 0 {
    }
  }

  lemma {:induction false} Divisors1(x: bv8, w: bv8)
    requires x >> 6 == 1 && x != 0 && Mul(x, w) == 0
    ensures w == 0
  {
    if x & 1 == 0 {
      if x & 2 == 0 {
      }
    } else if x & 2 == 0 {
    }
  }

  lemma {:induction false} Divisors2(x: bv8, w: bv8)
    requires x >> 6 == 2 && x != 0 && Mul(x, w) == 0
    ensures w == 0
  {
    if x & 1 == 0 {
      if x & 2 == 0 {
      }
    } else if x & 2 == 0 {
    }
  }

  lemma {:induction false} Divisors3(x: bv8, w: bv8)
    requires x >> 6 == 3 && x != 0 && Mul(x, w) == 0
    ensures w == 0
  {
    if x & 1 == 0 {
      if x & 2 == 0 {
      }
    } else if x & 2 == 0 {
    }
  }

  lemma {:induction false} NoZeroDivisors(x: bv8, w: bv8)
    requires x != 0 && Mul(x, w) == 0
    ensures w == 0
  {
    hide Mul;
    if x >> 6 == 0 {
      Divisors0(x, w);
    } else if x >> 6 == 1 {
      Divisors1(x, w);
    } else if x >> 6 == 2 {
      Divisors2(x, w);
    } else {
      Divisors3(x, w);
    }
  }

  lemma {:induction false} TermAdds(a: bv8, b: bv8, c: bv8, power: bv8)
    requires power == 1 || power == 2 || power == 4 || power == 8
      || power == 16 || power == 32 || power == 64 || power == 128
    ensures Term(a, Xor(b, c), power) == Xor(Term(a, b, power), Term(a, c, power))
  {
  }

  /** Four terms, paired. */
  function Four(a: bv8, b: bv8, power: bv8): bv8 {
    var a1 := Xtime(a);
    var a2 := Xtime(a1);
    Xor(Xor(Term(a, b, power), Term(a1, b, power * 2)), Xor(Term(a2, b, power * 4), Term(Xtime(a2), b, power * 8)))
  }

  lemma {:induction false} MulPairs(a: bv8, b: bv8)
    ensures Mul(a, b) == Xor(Four(a, b, 1), Four(Xtime(Xtime(Xtime(Xtime(a)))), b, 16))
  {
    var a4 := Xtime(Xtime(Xtime(Xtime(a))));
    Paired(Term(a, b, 1), Term(Xtime(a), b, 2), Term(Xtime(Xtime(a)), b, 4), Term(Xtime(Xtime(Xtime(a))), b, 8),
           Term(a4, b, 16), Term(Xtime(a4), b, 32), Term(Xtime(Xtime(a4)), b, 64),
           Term(Xtime(Xtime(Xtime(a4))), b, 128));
    hide Term, Xtime, Xor;
  }

  lemma {:induction false} Paired(t0: bv8, t1: bv8, t2: bv8, t3: bv8, t4: bv8, t5: bv8, t6: bv8, t7: bv8)
    ensures t0 ^ t1 ^ t2 ^ t3 ^ t4 ^ t5 ^ t6 ^ t7
      == Xor(Xor(Xor(t0, t1), Xor(t2, t3)), Xor(Xor(t4, t5), Xor(t6, t7)))
  {
  }

  lemma {:induction false} FourAdds(a: bv8, b: bv8, c: bv8, power: bv8)
    requires power == 1 || power == 16
    ensures Four(a, Xor(b, c), power) == Xor(Four(a, b, power), Four(a, c, power))
  {
    var a1 := Xtime(a);
    var a2 := Xtime(a1);
    var a3 := Xtime(a2);
    TermAdds(a, b, c, power);
    TermAdds(a1, b, c, power * 2);
    TermAdds(a2, b, c, power * 4);
    TermAdds(a3, b, c, power * 8);
    hide Term, Xtime, Xor;
    Interchange(Term(a, b, power), Term(a, c, power), Term(a1, b, power * 2), Term(a1, c, power * 2));
    Interchange(Term(a2, b, power * 4), Term(a2, c, power * 4), Term(a3, b, power * 8), Term(a3, c, power * 8));
    Interchange(Xor(Term(a, b, power), Term(a1, b, power * 2)), Xor(Term(a, c, power), Term(a1, c, power * 2)),
                Xor(Term(a2, b, power * 4), Term(a3, b, power * 8)),
                Xor(Term(a2, c, power * 4), Term(a3, c, power * 8)));
  }

  lemma {:induction false} MulAdds(a: bv8, b: bv8, c: bv8)
    ensures Mul(a, Xor(b, c)) == Xor(Mul(a, b), Mul(a, c))
  {
    hide Mul, Four, Xor, Xtime;
    var a4 := Xtime(Xtime(Xtime(Xtime(a))));
    MulPairs(a, b);
    MulPairs(a, c);
    MulPairs(a, Xor(b, c));
    FourAdds(a, b, c, 1);
    FourAdds(a4, b, c, 16);
    Interchange(Four(a, b, 1), Four(a, c, 1), Four(a4, b, 16), Four(a4, c, 16));
  }

  lemma {:induction false} MulByTwo(a: bv8)
    ensures Mul(a, 2) == Xtime(a) && Mul(a, 3) == Xor(Xtime(a), a)
  {
  }

  // ----- the S-box, section 5.1.1

  /** The affine map: each bit of the result is the sum of a bit, the four bits behind it, and one of 0x63. */
  function Affine(x: bv8): bv8 {
    x ^ ((x << 1) | (x >> 7)) ^ ((x << 2) | (x >> 6)) ^ ((x << 3) | (x >> 5)) ^ ((x << 4) | (x >> 4)) ^ 0x63
  }

  /** The inverse of the affine map. */
  function Unaffine(y: bv8): bv8 {
    ((y << 1) | (y >> 7)) ^ ((y << 3) | (y >> 5)) ^ ((y << 6) | (y >> 2)) ^ 0x05
  }

  /** What the S-box has for the inverse of x. */
  function Inv(x: bv8): bv8 {
    Unaffine(Sbox(x))
  }

  lemma {:induction false} Quarter0(x: bv8)
    requires x >> 6 == 0 && x != 0
    ensures Mul(x, Inv(x)) == 1
  {
    if x & 1 == 0 {
      if x & 2 == 0 {
      }
    } else if x & 2 == 0 {
    }
  }

  lemma {:induction false} Quarter1(x: bv8)
    requires x >> 6 == 1 && x != 0
    ensures Mul(x, Inv(x)) == 1
  {
    if x & 1 == 0 {
      if x & 2 == 0 {
      }
    } else if x & 2 == 0 {
    }
  }

  lemma {:induction false} Quarter2(x: bv8)
    requires x >> 6 == 2 && x != 0
    ensures Mul(x, Inv(x)) == 1
  {
    if x & 1 == 0 {
      if x & 2 == 0 {
      }
    } else if x & 2 == 0 {
    }
  }

  lemma {:induction false} Quarter3(x: bv8)
    requires x >> 6 == 3 && x != 0
    ensures Mul(x, Inv(x)) == 1
  {
    if x & 1 == 0 {
      if x & 2 == 0 {
      }
    } else if x & 2 == 0 {
    }
  }

  lemma {:induction false} InvIsInverse(x: bv8)
    requires x != 0
    ensures Mul(x, Inv(x)) == 1
  {
    hide Mul, Inv;
    if x >> 6 == 0 {
      Quarter0(x);
    } else if x >> 6 == 1 {
      Quarter1(x);
    } else if x >> 6 == 2 {
      Quarter2(x);
    } else {
      Quarter3(x);
    }
  }

  lemma {:induction false} AffineBack(y: bv8)
    ensures Affine(Unaffine(y)) == y
  {
  }

  lemma {:induction false} OneInverse(x: bv8, y: bv8, z: bv8)
    requires Mul(x, y) == 1 && Mul(x, z) == 1
    ensures y == z
  {
    MulAdds(x, y, z);
    ZeroTimes(y);
    NoZeroDivisors(x, Xor(y, z));
  }

  lemma {:induction false} ZeroTimes(y: bv8)
    ensures Mul(0, y) == 0
  {
  }

  /** The S-box takes each byte to the affine image of its inverse, and 0 to that of 0. */
  lemma {:induction false} SboxIsStandard(x: bv8)
    ensures Sbox(0) == Affine(0)
    ensures x != 0 ==> exists y :: Mul(x, y) == 1
    ensures forall y | Mul(x, y) == 1 :: Sbox(x) == Affine(y)
  {
    if x != 0 {
      InvIsInverse(x);
    }
    forall y | Mul(x, y) == 1 ensures Sbox(x) == Affine(y) {
      ZeroTimes(y);
      OneInverse(x, y, Inv(x));
      AffineBack(Sbox(x));
    }
  }

  // ----- the rounds, section 5.1; byte r of column c is byte 4 * c + r

  /** SubBytes and ShiftRows. */
  function Shifted(s: Bytes, r: nat, c: nat): bv8
    requires |s| == 16 && r < 4 && c < 4
  {
    Sbox(s[r + 4 * ((c + r) % 4)])
  }

  /** MixColumns after them. */
  function MixedByte(s: Bytes, r: nat, c: nat): bv8
    requires |s| == 16 && r < 4 && c < 4
  {
    Mul(Shifted(s, r, c), 2) ^ Mul(Shifted(s, (r + 1) % 4, c), 3) ^ Shifted(s, (r + 2) % 4, c)
    ^ Shifted(s, (r + 3) % 4, c)
  }

  lemma {:induction false} RowsAt(t: Bytes, r: nat, c: nat)
    requires |t| == 16 && r < 4 && c < 4
    ensures ShiftRows(t)[4 * c + r] == t[r + 4 * ((c + r) % 4)]
  {
    var k := 4 * c + r;
    assert k == 0 || k == 1 || k == 2 || k == 3 || k == 4 || k == 5 || k == 6 || k == 7
      || k == 8 || k == 9 || k == 10 || k == 11 || k == 12 || k == 13 || k == 14 || k == 15;
  }

  lemma {:induction false} ShiftIsStandard(s: Bytes, r: nat, c: nat)
    requires |s| == 16 && r < 4 && c < 4
    ensures ShiftRows(SubBytes(s))[4 * c + r] == Shifted(s, r, c)
  {
    hide Sbox, ShiftRows;
    RowsAt(SubBytes(s), r, c);
  }

  lemma {:induction false} ByteOf(s: Bytes, r: nat, c: nat)
    requires |s| == 16 && r < 4 && c < 4
    ensures Bytes4(ColumnOf(s, c))[r] == s[4 * c + r]
  {
    assert r == 0 || r == 1 || r == 2 || r == 3;
  }

  lemma {:induction false} ColumnByte(f: Column -> Column, s: Bytes, r: nat, c: nat)
    requires |s| == 16 && r < 4 && c < 4
    ensures OnColumns(f, s)[4 * c + r] == Bytes4(f(ColumnOf(s, c)))[r]
  {
    ColumnsOf(f, s);
    ByteOf(OnColumns(f, s), r, c);
    hide OnColumns, ColumnOf, Bytes4;
    assert ColumnOf(OnColumns(f, s), c) == f(ColumnOf(s, c));
  }

  lemma {:induction false} MixedAt(k: Column, r: nat)
    requires r < 4
    ensures var b := Bytes4(k);
      Bytes4(MixColumn(k))[r] == Mixed(b[r], b[(r + 1) % 4], b[(r + 2) % 4], b[(r + 3) % 4])
  {
    hide Mixed;
    assert r == 0 || r == 1 || r == 2 || r == 3;
  }

  lemma {:induction false} MixIsStandard(s: Bytes, r: nat, c: nat)
    requires |s| == 16 && r < 4 && c < 4
    ensures MixColumns(s)[4 * c + r]
      == Mul(s[4 * c + r], 2) ^ Mul(s[4 * c + (r + 1) % 4], 3) ^ s[4 * c + (r + 2) % 4] ^ s[4 * c + (r + 3) % 4]
  {
    hide Mul, Mixed, MixColumn, ColumnOf, Bytes4, OnColumns;
    var k := Bytes4(ColumnOf(s, c));
    ColumnByte(MixColumn, s, r, c);
    MixedAt(ColumnOf(s, c), r);
    ByteOf(s, r, c);
    ByteOf(s, (r + 1) % 4, c);
    ByteOf(s, (r + 2) % 4, c);
    ByteOf(s, (r + 3) % 4, c);
    ProductIsStandard(k[r], k[(r + 1) % 4], k[(r + 2) % 4], k[(r + 3) % 4]);
  }

  lemma {:induction false} ProductIsStandard(a: bv8, b: bv8, d: bv8, e: bv8)
    ensures Mixed(a, b, d, e) == Mul(a, 2) ^ Mul(b, 3) ^ d ^ e
  {
    MixedIsProduct(a, b, d, e);
    MulByTwo(a);
    MulByTwo(b);
    hide Mul, Xtime, Mixed;
    Regroup(Mul(a, 2), Mul(b, 3), d, e);
  }

  lemma {:induction false} Regroup(a: bv8, b: bv8, d: bv8, e: bv8)
    ensures Xor(Xor(a, b), Xor(d, e)) == a ^ b ^ d ^ e
  {
  }

  /** One of the first nine rounds. */
  ghost predicate StandardRound(s: Bytes, t: Bytes, rk: Bytes, n: nat) {
    && |s| == |t| == 16 && |rk| == 176 && n <= 10
    && forall r, c | 0 <= r < 4 && 0 <= c < 4 :: t[4 * c + r] == MixedByte(s, r, c) ^ rk[16 * n + (4 * c + r)]
  }

  lemma {:induction false} RoundIsStandard(s: Bytes, rk: Bytes, n: nat)
    requires |s| == 16 && |rk| == 176 && n <= 10
    ensures StandardRound(s, XorAll(MixColumns(ShiftRows(SubBytes(s))), RoundKey(rk, n)), rk, n)
  {
    hide MixColumns, ShiftRows, SubBytes, MixedByte, XorAll, RoundKey;
    forall r, c | 0 <= r < 4 && 0 <= c < 4
      ensures XorAll(MixColumns(ShiftRows(SubBytes(s))), RoundKey(rk, n))[4 * c + r]
        == MixedByte(s, r, c) ^ rk[16 * n + (4 * c + r)]
    {
      RoundByte(s, r, c);
      XorAt(MixColumns(ShiftRows(SubBytes(s))), rk, n, 4 * c + r);
    }
  }

  lemma {:induction false} RoundByte(s: Bytes, r: nat, c: nat)
    requires |s| == 16 && r < 4 && c < 4
    ensures MixColumns(ShiftRows(SubBytes(s)))[4 * c + r] == MixedByte(s, r, c)
  {
    hide MixColumns, ShiftRows, SubBytes, Shifted, Mul;
    MixIsStandard(ShiftRows(SubBytes(s)), r, c);
    ShiftIsStandard(s, r, c);
    ShiftIsStandard(s, (r + 1) % 4, c);
    ShiftIsStandard(s, (r + 2) % 4, c);
    ShiftIsStandard(s, (r + 3) % 4, c);
  }

  lemma {:induction false} XorAt(s: Bytes, rk: Bytes, n: nat, k: nat)
    requires |s| == 16 && |rk| == 176 && n <= 10 && k < 16
    ensures XorAll(s, RoundKey(rk, n))[k] == s[k] ^ rk[16 * n + k]
  {
  }

  /** The states of the cipher: the key added, nine rounds, and a last one without MixColumns. */
  lemma {:induction false} EncryptIsStandard(rk: Bytes, s: Bytes) returns (st: seq<Bytes>)
    requires |rk| == 176 && |s| == 16
    ensures |st| == 11 && st[10] == Encrypt(rk, s) && forall n | 0 <= n < 11 :: |st[n]| == 16
    ensures forall k | 0 <= k < 16 :: st[0][k] == s[k] ^ rk[k]
    ensures forall n | 1 <= n < 10 :: StandardRound(st[n - 1], st[n], rk, n)
    ensures forall r, c | 0 <= r < 4 && 0 <= c < 4 :: st[10][4 * c + r] == Shifted(st[9], r, c) ^ rk[160 + (4 * c + r)]
  {
    hide Sbox, MixColumns, ShiftRows, SubBytes, StandardRound, MixedByte, Mul, Shifted, XorAll;
    st := seq(10, n requires 0 <= n < 10 => EncRounds(rk, s, n)) + [Encrypt(rk, s)];
    forall k | 0 <= k < 16 ensures st[0][k] == s[k] ^ rk[k] {
      XorAt(s, rk, 0, k);
    }
    forall n | 1 <= n < 10 ensures StandardRound(st[n - 1], st[n], rk, n) {
      RoundIsStandard(st[n - 1], rk, n);
    }
    forall r, c | 0 <= r < 4 && 0 <= c < 4
      ensures st[10][4 * c + r] == Shifted(st[9], r, c) ^ rk[160 + (4 * c + r)]
    {
      ShiftIsStandard(st[9], r, c);
      XorAt(ShiftRows(SubBytes(st[9])), rk, 10, 4 * c + r);
    }
  }

  // ----- the key schedule, section 5.2

  /** x to the n, the round constants. */
  function Power(n: nat): bv8 {
    if n == 0 then 1 else Mul(Power(n - 1), 2)
  }

  lemma {:induction false} RconIsPower(n: nat)
    requires n < 10
    ensures RCON[n] == Power(n)
  {
    if n > 0 {
      RconIsPower(n - 1);
      MulByTwo(RCON[n - 1]);
    }
  }

  /** Each byte of an expanded key behind the key itself. */
  lemma {:induction false} KeyIsStandard(rk: Bytes, key: Bytes, i: nat, j: nat)
    requires |key| == 16 && |rk| == 176 && Expanded(rk, key, 44) && 4 <= i < 44 && j < 4
    ensures rk[..16] == key
    ensures rk[4 * i + j] == rk[4 * (i - 4) + j]
      ^ if i % 4 != 0 then rk[4 * (i - 1) + j]
        else Sbox(rk[4 * (i - 1) + (j + 1) % 4]) ^ if j == 0 then Power(i / 4 - 1) else 0
  {
    assert WordOk(rk, i);
    WordByte(rk, i, j);
    WordByte(rk, i - 4, j);
    TempByte(rk, i, j);
    hide Sbox, Power, Temp, KeyWord;
    assert KeyWord(rk, i)[j] == Xor(KeyWord(rk, i - 4)[j], Temp(rk, i)[j]);
  }

  lemma {:induction false} WordByte(rk: Bytes, i: nat, j: nat)
    requires 4 * i + 4 <= |rk| && j < 4
    ensures |KeyWord(rk, i)| == 4 && KeyWord(rk, i)[j] == rk[4 * i + j]
  {
  }

  lemma {:induction false} TempByte(rk: Bytes, i: nat, j: nat)
    requires |rk| == 176 && 4 <= i < 44 && j < 4
    ensures Temp(rk, i)[j]
      == if i % 4 != 0 then rk[4 * (i - 1) + j]
         else Sbox(rk[4 * (i - 1) + (j + 1) % 4]) ^ if j == 0 then Power(i / 4 - 1) else 0
  {
    hide Sbox, Power, KeyWord, RotatedWord;
    WordByte(rk, i - 1, j);
    WordByte(rk, i - 1, (j + 1) % 4);
    if i % 4 == 0 {
      RconIsPower(i / 4 - 1);
      RotatedByte(KeyWord(rk, i - 1), RCON[i / 4 - 1], j);
    }
  }

  lemma {:induction false} RotatedByte(t: Bytes, k: bv8, j: nat)
    requires |t| == 4 && j < 4
    ensures RotatedWord(t, k)[j] == Sbox(t[(j + 1) % 4]) ^ if j == 0 then k else 0
  {
    hide Sbox;
    if j == 0 {
    } else if j == 1 {
    } else if j == 2 {
    }
  }

  // ----- chaining, section 6.2 of SP 800-38A

  /** Each block is encrypted with the one before it, or the initialization vector, added. */
  lemma {:induction false} CbcIsStandard(c: Cipher, iv: Bytes, s: Bytes, i: nat)
    requires IsCipher(c) && |iv| == 16 && |s| % 16 == 0 && 16 * i + 16 <= |s|
    ensures var r := CbcEncrypt(c, iv, s);
      r[16 * i..16 * i + 16] == c.enc(XorAll(s[16 * i..16 * i + 16], if i == 0 then iv else r[16 * i - 16..16 * i]))
    decreases i
  {
    hide XorAll, CbcEncrypt, IsCipher;
    var t, y, r := s[16..], c.enc(XorAll(s[..16], iv)), CbcEncrypt(c, iv, s);
    CbcFront(c, iv, s);
    if i > 0 {
      CbcIsStandard(c, y, t, i - 1);
      var k := 16 * (i - 1);
      SliceOfRest(s, 16, k, k + 16);
      SliceOfRest(r, 16, k, k + 16);
      if i > 1 {
        SliceOfRest(r, 16, k - 16, k);
      }
    }
  }

  lemma {:induction false} CbcFront(c: Cipher, iv: Bytes, s: Bytes)
    requires IsCipher(c) && |iv| == 16 && |s| % 16 == 0 && |s| >= 16
    ensures var y := c.enc(XorAll(s[..16], iv));
      && |y| == 16 && |s[16..]| % 16 == 0 && |CbcEncrypt(c, iv, s)| == |s|
      && CbcEncrypt(c, iv, s)[..16] == y && CbcEncrypt(c, iv, s)[16..] == CbcEncrypt(c, y, s[16..])
  {
    hide XorAll;
    assert Works(c, XorAll(s[..16], iv));
  }

  lemma {:induction false} SliceOfRest(s: Bytes, n: nat, a: nat, b: nat)
    requires a <= b && n + b <= |s|
    ensures s[n..][a..b] == s[n + a..n + b]
  {
  }
}
