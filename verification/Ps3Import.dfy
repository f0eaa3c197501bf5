/** Importing an encrypted PS3 disc: sectors outside the plaintext regions are decrypted, the rest copied. */
module Ps3Import {
  import opened Cbc
  import opened Aes
  import opened AesCode

  const SECTOR := 2048
  const BATCH_SECTORS := 64

  // ----- regions and IVs

  /** An inclusive range of plaintext sectors. */
  datatype Region = Region(start: nat, end: nat)

  /** The number that base-256 digits, most significant first, stand for. */
  function FromBe(s: seq<nat>): nat {
    if s == [] then 0 else 256 * FromBe(s[..|s| - 1]) + s[|s| - 1]
  }

  function Power256(k: nat): nat {
    if k == 0 then 1 else 256 * Power256(k - 1)
  }

  function BeDigits(n: nat, k: nat): (s: seq<nat>)
    ensures |s| == k
  {
    seq(k, j requires 0 <= j < k => Digit(n, k - 1 - j))
  }

  lemma {:induction false} BeRoundTrip(n: nat, k: nat)
    requires n < Power256(k)
    ensures FromBe(BeDigits(n, k)) == n
  {
    var s := BeDigits(n, k);
    if k > 0 {
      BeRoundTrip(n / 256, k - 1);
      var t := BeDigits(n / 256, k - 1);
      forall j | 0 <= j < k - 1 ensures s[j] == t[j] {
        assert Digit(n, k - 1 - j) == Digit(n / 256, k - 2 - j);
      }
      assert s[..k - 1] == t;
      assert s[k - 1] == Digit(n, 0) == n % 256;
      assert n == 256 * (n / 256) + n % 256;
    }
  }

  /** The IV of a sector is its number as 128 bits, most significant byte first. */
  lemma {:induction false} IvIsNumber(sector: nat)
    requires sector < Power256(16)
    ensures exists d: seq<nat> ::
      |d| == 16 && FromBe(d) == sector
      && forall j | 0 <= j < 16 :: d[j] < 256 && SectorIv(sector)[j] == d[j] as bv8
  {
    BeRoundTrip(sector, 16);
    hide Power256, FromBe, Digit;
    var d := BeDigits(sector, 16);
    assert |d| == 16 && FromBe(d) == sector;
    forall j | 0 <= j < 16 ensures d[j] < 256 && SectorIv(sector)[j] == d[j] as bv8 {
      assert d[j] == Digit(sector, 15 - j);
    }
  }

  ghost predicate Plaintext(regions: seq<Region>, sector: nat) {
    exists i :: 0 <= i < |regions| && regions[i].start <= sector <= regions[i].end
  }

  /** ps3_is_encrypted_sector */
  method IsEncrypted(regions: seq<Region>, sector: nat) returns (r: bool)
    ensures r <==> !Plaintext(regions, sector)
    ensures r <==> forall i | 0 <= i < |regions| :: sector < regions[i].start || sector > regions[i].end
  {
    var i := 0;
    while i < |regions|
      invariant 0 <= i <= |regions| && forall j | 0 <= j < i :: !(regions[j].start <= sector <= regions[j].end)
    {
      if sector >= regions[i].start && sector <= regions[i].end {
        return false;
      }
      i := i + 1;
    }
    return true;
  }

  function Digit(n: nat, k: nat): (d: nat)
    ensures d < 256
  {
    if k == 0 then n % 256 else Digit(n / 256, k - 1)
  }

  function ByteOf(d: nat): bv8
    requires d < 256
  {
    d as bv8
  }

  /** The sector number as sixteen bytes, most significant first. */
  function SectorIv(n: nat): (iv: Bytes)
    ensures |iv| == 16
  {
    seq(16, j requires 0 <= j < 16 => ByteOf(Digit(n, 15 - j)))
  }

  lemma {:induction false} DigitOfZero(k: nat)
    ensures Digit(0, k) == 0 && ByteOf(0) == 0
  {
    if k > 0 {
      DigitOfZero(k - 1);
    }
  }

  function Shifted(n: nat, k: nat): nat {
    if k == 0 then n else Shifted(n, k - 1) / 256
  }

  lemma {:induction false} DigitOfShifted(n: nat, k: nat, j: nat)
    ensures Digit(Shifted(n, k), j) == Digit(n, k + j)
  {
    if k > 0 {
      DigitOfShifted(n, k - 1, j + 1);
    }
  }

  /** ps3_sector_iv: fills from the last byte and stops when nothing is left of the number. */
  method MakeIv(sector: nat) returns (iv: Bytes)
    ensures iv == SectorIv(sector)
  {
    hide Digit, ByteOf, Shifted;
    iv := seq(16, _ => 0);
    var n := sector;
    var j := 15;
    FirstDigits(sector);
    while j >= 0 && n != 0
      invariant -1 <= j <= 15 && |iv| == 16 && n == Shifted(sector, 15 - j)
      invariant forall i | 0 <= i <= j :: iv[i] == 0
      invariant forall i | j < i < 16 :: iv[i] == ByteOf(Digit(sector, 15 - i))
    {
      NextDigit(sector, 15 - j);
      iv := iv[j := ByteOf(n % 256)];
      n := n / 256;
      j := j - 1;
    }
    forall i | 0 <= i <= j ensures iv[i] == ByteOf(Digit(sector, 15 - i)) {
      DigitOfShifted(sector, 15 - j, j - i);
      DigitOfZero(j - i);
    }
  }

  lemma {:induction false} FirstDigits(n: nat)
    ensures Shifted(n, 0) == n
  {
  }

  lemma {:induction false} NextDigit(n: nat, k: nat)
    ensures Digit(n, k) == Shifted(n, k) % 256 && Shifted(n, k + 1) == Shifted(n, k) / 256
  {
    DigitOfShifted(n, k, 0);
  }

  // ----- the import

  /** Sector i of the disc, zero-filled past the end of the file. */
  function DiscSector(disc: Bytes, i: nat): (s: Bytes)
    ensures |s| == SECTOR
  {
    seq(SECTOR, k requires 0 <= k < SECTOR => if SECTOR * i + k < |disc| then disc[SECTOR * i + k] else 0)
  }

  /** What the import writes for sector i. */
  ghost function Imported(disc: Bytes, regions: seq<Region>, c: Cipher, i: nat): (s: Bytes)
    requires IsCipher(c)
    ensures |s| == SECTOR
  {
    if Plaintext(regions, i) then DiscSector(disc, i) else CbcDecrypt(c, SectorIv(i), DiscSector(disc, i))
  }

  ghost function Image(disc: Bytes, regions: seq<Region>, c: Cipher, n: nat): (s: Bytes)
    requires IsCipher(c)
    ensures |s| == SECTOR * n
  {
    if n == 0 then [] else Image(disc, regions, c, n - 1) + Imported(disc, regions, c, n - 1)
  }

  /** The number of plaintext sectors among the first n. */
  ghost function PlainCount(regions: seq<Region>, n: nat): nat {
    if n == 0 then 0 else PlainCount(regions, n - 1) + (if Plaintext(regions, n - 1) then 1 else 0)
  }

  /** A positioned read of one sector, with the tail zeroed when it comes up short. */
  method ReadSector(disc: Bytes, i: nat) returns (s: Bytes)
    ensures s == DiscSector(disc, i)
  {
    var at := SECTOR * i;
    var n := if at >= |disc| then 0 else if |disc| - at < SECTOR then |disc| - at else SECTOR;
    s := (if n == 0 then [] else disc[at..at + n]) + seq(SECTOR - n, _ => 0);
  }

  /** ps3_import: sector by sector into a batch buffer that is written out when full and at the end. */
  method Import(disc: Bytes, discKey: Bytes, regions: seq<Region>, total: nat)
    returns (out: Bytes, rk: Bytes, plain: nat, encrypted: nat)
    requires |discKey| == 16
    ensures |rk| == 176 && Expanded(rk, discKey, 44) && IsCipher(Aes128(rk))
    ensures out == Image(disc, regions, Aes128(rk), total)
    ensures plain == PlainCount(regions, total) && plain + encrypted == total
  {
    hide Encrypt, Decrypt, IsCipher, CbcDecrypt, SectorIv, DiscSector;
    rk := KeyExpansion(discKey);
    AesIsCipher(rk);
    ghost var c := Aes128(rk);
    out, plain, encrypted := [], 0, 0;
    var batch: Bytes := [];
    var sec := 0;
    while sec < total
      invariant 0 <= sec <= total && out + batch == Image(disc, regions, c, sec)
      invariant |batch| < SECTOR * BATCH_SECTORS
      invariant plain == PlainCount(regions, sec) && plain + encrypted == sec
    {
      var data := ReadSector(disc, sec);
      var enc := IsEncrypted(regions, sec);
      if enc {
        var iv := MakeIv(sec);
        data := CbcDecryptBuffer(rk, iv, data);
        encrypted := encrypted + 1;
      } else {
        plain := plain + 1;
      }
      AssocBytes(out, batch, data);
      batch := batch + data;
      if |batch| >= SECTOR * BATCH_SECTORS {
        out := out + batch;
        batch := [];
      }
      sec := sec + 1;
    }
    if |batch| > 0 {
      out := out + batch;
    }
    assert out == Image(disc, regions, c, total);
  }

  // ----- losslessness

  /** Re-encrypting sector i of an image under the same map and IV. */
  ghost function Restored(s: Bytes, regions: seq<Region>, c: Cipher, i: nat): Bytes
    requires IsCipher(c) && |s| == SECTOR
  {
    if Plaintext(regions, i) then s else CbcEncrypt(c, SectorIv(i), s)
  }

  lemma {:induction false} ImageSector(disc: Bytes, regions: seq<Region>, c: Cipher, n: nat, i: nat)
    requires IsCipher(c) && i < n
    ensures Image(disc, regions, c, n)[SECTOR * i..SECTOR * i + SECTOR] == Imported(disc, regions, c, i)
  {
    hide Imported, IsCipher;
    var prev := Image(disc, regions, c, n - 1);
    if i < n - 1 {
      ImageSector(disc, regions, c, n - 1, i);
      assert (prev + Imported(disc, regions, c, n - 1))[SECTOR * i..SECTOR * i + SECTOR]
        == prev[SECTOR * i..SECTOR * i + SECTOR];
    }
  }

  /** Re-encrypting the imported image per sector gives the source disc back. */
  lemma {:induction false} ImportIsLossless(disc: Bytes, regions: seq<Region>, c: Cipher, n: nat, i: nat)
    requires IsCipher(c) && i < n
    ensures Restored(Image(disc, regions, c, n)[SECTOR * i..SECTOR * i + SECTOR], regions, c, i) == DiscSector(disc, i)
  {
    hide IsCipher, DiscSector, CbcDecrypt, CbcEncrypt, SectorIv;
    ImageSector(disc, regions, c, n, i);
    if !Plaintext(regions, i) {
      CbcEncryptOfDecrypt(c, SectorIv(i), DiscSector(disc, i));
    }
  }
}
