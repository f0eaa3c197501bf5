/** Cipher block chaining, for any block cipher (section 6.2 of NIST SP 800-38A). */
module Cbc {
  import opened AesColumns

  type Bytes = seq<bv8>

  function XorAll(s: Bytes, k: Bytes): (r: Bytes)
    requires |s| == |k|
    ensures |r| == |s|
  {
    seq(|s|, i requires 0 <= i < |s| => Xor(s[i], k[i]))
  }

  lemma {:induction false} XorTwice(s: Bytes, k: Bytes)
    requires |s| == |k|
    ensures XorAll(XorAll(s, k), k) == s
  {
    forall i | 0 <= i < |s| ensures Xor(Xor(s[i], k[i]), k[i]) == s[i] {
      Self(k[i], s[i]);
    }
    hide Xor;
  }

  /** A cipher on blocks of sixteen bytes. */
  datatype Cipher = Cipher(enc: Bytes -> Bytes, dec: Bytes -> Bytes)

  ghost predicate Works(c: Cipher, x: Bytes) {
    |c.enc(x)| == 16 && |c.dec(x)| == 16 && c.dec(c.enc(x)) == x && c.enc(c.dec(x)) == x
  }

  ghost predicate IsCipher(c: Cipher) {
    forall x: Bytes | |x| == 16 :: Works(c, x)
  }

  ghost function CbcEncrypt(c: Cipher, iv: Bytes, s: Bytes): (r: Bytes)
    requires IsCipher(c) && |iv| == 16 && |s| % 16 == 0
    ensures |r| == |s|
    decreases |s|
  {
    if s == [] then []
    else
      var x := XorAll(s[..16], iv);
      assert Works(c, x);
      c.enc(x) + CbcEncrypt(c, c.enc(x), s[16..])
  }

  ghost function CbcDecrypt(c: Cipher, iv: Bytes, s: Bytes): (r: Bytes)
    requires IsCipher(c) && |iv| == 16 && |s| % 16 == 0
    ensures |r| == |s|
    decreases |s|
  {
    if s == [] then []
    else
      assert Works(c, s[..16]);
      XorAll(c.dec(s[..16]), iv) + CbcDecrypt(c, s[..16], s[16..])
  }

  /** For every IV and every whole number of blocks, decryption undoes encryption... */
  lemma {:induction false} CbcDecryptOfEncrypt(c: Cipher, iv: Bytes, s: Bytes)
    requires IsCipher(c) && |iv| == 16 && |s| % 16 == 0
    ensures CbcDecrypt(c, iv, CbcEncrypt(c, iv, s)) == s
    decreases |s|
  {
    hide XorAll;
    if s != [] {
      var x := XorAll(s[..16], iv);
      assert Works(c, x);
      var y := c.enc(x);
      XorTwice(s[..16], iv);
      CbcDecryptOfEncrypt(c, y, s[16..]);
      var e := CbcEncrypt(c, iv, s);
      assert e[..16] == y && e[16..] == CbcEncrypt(c, y, s[16..]);
    }
  }

  /** ... and encryption undoes decryption. */
  lemma {:induction false} CbcEncryptOfDecrypt(c: Cipher, iv: Bytes, s: Bytes)
    requires IsCipher(c) && |iv| == 16 && |s| % 16 == 0
    ensures CbcEncrypt(c, iv, CbcDecrypt(c, iv, s)) == s
    decreases |s|
  {
    hide XorAll;
    if s != [] {
      assert Works(c, s[..16]);
      var p := c.dec(s[..16]);
      XorTwice(p, iv);
      CbcEncryptOfDecrypt(c, s[..16], s[16..]);
      var d := CbcDecrypt(c, iv, s);
      assert d[..16] == XorAll(p, iv) && d[16..] == CbcDecrypt(c, s[..16], s[16..]);
    }
  }

  /** One block of decryption, at the front. */
  lemma {:induction false} DecryptFront(c: Cipher, iv: Bytes, s: Bytes, i: nat)
    requires IsCipher(c) && |iv| == 16 && |s| % 16 == 0 && i % 16 == 0 && i + 16 <= |s|
    ensures Works(c, s[i..i + 16]) && |s[i..]| % 16 == 0 && |s[i + 16..]| % 16 == 0
    ensures CbcDecrypt(c, iv, s[i..]) == XorAll(c.dec(s[i..i + 16]), iv) + CbcDecrypt(c, s[i..i + 16], s[i + 16..])
  {
    hide XorAll;
    var t := s[i..];
    assert t[..16] == s[i..i + 16] && t[16..] == s[i + 16..];
    assert Works(c, t[..16]);
  }

  lemma {:induction false} EncryptFront(c: Cipher, iv: Bytes, s: Bytes, i: nat)
    requires IsCipher(c) && |iv| == 16 && |s| % 16 == 0 && i % 16 == 0 && i + 16 <= |s|
    ensures Works(c, XorAll(s[i..i + 16], iv)) && |s[i..]| % 16 == 0 && |s[i + 16..]| % 16 == 0
    ensures var y := c.enc(XorAll(s[i..i + 16], iv)); CbcEncrypt(c, iv, s[i..]) == y + CbcEncrypt(c, y, s[i + 16..])
  {
    hide XorAll;
    var t := s[i..];
    assert t[..16] == s[i..i + 16] && t[16..] == s[i + 16..];
    assert Works(c, XorAll(t[..16], iv));
  }
}
