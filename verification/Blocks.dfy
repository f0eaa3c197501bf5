/** Blocks, byte strings and the on-disk form of a compressed group. */
module Blocks {

  type byte = x: int | 0 <= x < 256
  type Bytes = seq<byte>
  type Block = seq<byte>

  datatype Option<+T> = None | Some(value: T)

  // ----- byte strings and blocks

  function Zeros(n: nat): Bytes {
    seq(n, _ => 0)
  }

  ghost predicate AllSized(b: seq<Block>, bs: nat) {
    forall i | 0 <= i < |b| :: |b[i]| == bs
  }

  /** The blocks one after another. */
  function Join(b: seq<Block>): Bytes {
    if b == [] then [] else b[0] + Join(b[1..])
  }

  /** The whole blocks of a byte string. */
  function Split(s: Bytes, bs: nat): seq<Block>
    requires bs > 0
    decreases |s|
  {
    if |s| < bs then [] else [s[..bs]] + Split(s[bs..], bs)
  }

  lemma {:induction false} JoinLength(b: seq<Block>, bs: nat)
    requires AllSized(b, bs)
    ensures |Join(b)| == |b| * bs
  {
    if b != [] {
      JoinLength(b[1..], bs);
    }
  }

  lemma {:induction false} SplitJoin(b: seq<Block>, bs: nat)
    requires bs > 0 && AllSized(b, bs)
    ensures Split(Join(b), bs) == b
  {
    if b != [] {
      SplitJoin(b[1..], bs);
      assert Join(b)[..bs] == b[0] && Join(b)[bs..] == Join(b[1..]);
    }
  }

  lemma {:induction false} JoinConcat(a: seq<Block>, b: seq<Block>)
    ensures Join(a + b) == Join(a) + Join(b)
  {
    if a == [] {
      assert a + b == b;
    } else {
      assert (a + b)[1..] == a[1..] + b;
      JoinConcat(a[1..], b);
    }
  }

  lemma {:induction false} SplitSized(s: Bytes, bs: nat)
    requires bs > 0
    ensures AllSized(Split(s, bs), bs) && |Split(s, bs)| == |s| / bs
    ensures |s| % bs == 0 ==> Join(Split(s, bs)) == s
    decreases |s|
  {
    if |s| >= bs {
      SplitSized(s[bs..], bs);
      SubtractOne(|s|, bs);
      assert s == s[..bs] + s[bs..];
    }
  }

  lemma {:induction false} SubtractOne(n: nat, bs: nat)
    requires 0 < bs <= n
    ensures n / bs == (n - bs) / bs + 1 && n % bs == (n - bs) % bs
  {
    var q, r := (n - bs) / bs, (n - bs) % bs;
    assert n == (q + 1) * bs + r;
    DivModUnique(n, bs, q + 1, r);
  }

  lemma {:induction false} DivModUnique(n: int, bs: int, q: int, r: int)
    requires bs > 0 && n == q * bs + r && 0 <= r < bs
    ensures n / bs == q && n % bs == r
  {
    var q', r' := n / bs, n % bs;
    var k := q - q';
    assert k * bs == q * bs - q' * bs == r' - r;
    if k >= 1 {
      MulAtLeast(k, bs);
    } else if k <= -1 {
      assert (-k) * bs == -(k * bs);
      MulAtLeast(-k, bs);
    }
  }

  lemma {:induction false} MulAtLeast(k: int, bs: int)
    requires k >= 1 && bs > 0
    ensures k * bs >= bs
  {
    assert k * bs == bs + (k - 1) * bs;
  }

  lemma {:induction false} SliceOfSlice<T>(s: seq<T>, a: nat, b: nat, i: nat, j: nat)
    requires a <= b <= |s| && i <= j <= b - a
    ensures s[a..b][i..j] == s[a + i..a + j]
  {
    var x, y := s[a..b][i..j], s[a + i..a + j];
    forall k | 0 <= k < |x| ensures x[k] == y[k] {
      assert x[k] == s[a..b][i + k];
      assert y[k] == s[a + i + k];
    }
  }

  // ----- little-endian integers

  function Le(n: nat, k: nat): Bytes {
    if k == 0 then [] else [n % 256] + Le(n / 256, k - 1)
  }

  function FromLe(s: Bytes): nat {
    if s == [] then 0 else s[0] + 256 * FromLe(s[1..])
  }

  function Pow256(k: nat): nat {
    if k == 0 then 1 else 256 * Pow256(k - 1)
  }

  lemma {:induction false} LeRoundTrip(n: nat, k: nat)
    requires n < Pow256(k)
    ensures |Le(n, k)| == k && FromLe(Le(n, k)) == n
  {
    if k > 0 {
      LeRoundTrip(n / 256, k - 1);
    }
  }

  // ----- the compressed form of a group

  /** The configured algorithm of a write; Off stores groups uncompressed. */
  datatype Algo = Off | Zstd | Lzma

  /** Foreign code: compression (None when it fails or is not worth trying), decompression and the
      block checksum. */
  datatype Codec = Codec(
    compress: (Algo, Bytes) -> Option<Bytes>,
    decompress: (Algo, Bytes, nat) -> Option<Bytes>,
    checksum: Bytes -> Bytes)

  /** Decompressing what was compressed gives it back; checksums are 32 bytes long. */
  ghost predicate Lossless(c: Codec) {
    && (forall a, x {:trigger c.compress(a, x)} ::
          c.compress(a, x).Some? ==> c.decompress(a, c.compress(a, x).value, |x|) == Some(x))
    && (forall x {:trigger c.checksum(x)} :: |c.checksum(x)| == 32)
  }

  const BLOCK_MAGIC: nat := 0x4B434C42414D424F
  const FLAG_COMPRESSED: byte := 1

  /** sizeof(struct block_header): magic, flags, type, two sizes and the checksum. */
  const HEADER_SIZE := 58

  function AlgoByte(a: Algo): byte {
    match a case Off => 0 case Zstd => 1 case Lzma => 2
  }

  function ByteAlgo(b: byte): Algo {
    if b == 2 then Lzma else Zstd
  }

  /** A struct block_header in its packed layout. */
  function Header(flags: byte, kind: byte, original: nat, compressed: nat, checksum: Bytes): Bytes {
    Le(BLOCK_MAGIC, 8) + [flags, kind] + Le(original, 8) + Le(compressed, 8) + checksum
  }

  /** Blocks needed for n bytes. */
  function CeilDiv(n: nat, bs: nat): nat
    requires bs > 0
  {
    (n + bs - 1) / bs
  }

  /** Header and payload, zero-padded to whole blocks. */
  function Packed(c: Codec, a: Algo, payload: Bytes, original: nat, bs: nat): Bytes
    requires bs > 0
  {
    var raw := Header(FLAG_COMPRESSED, AlgoByte(a), original, |payload|, c.checksum(payload)) + payload;
    var total := CeilDiv(|raw|, bs) * bs;
    raw + if total > |raw| then Zeros(total - |raw|) else []
  }

  datatype Unpack = Data(bytes: Bytes) | BadMagic | BadChecksum | Corrupt

  /** The header checks and decompression done on the physical blocks of a compressed extent. */
  function Unpacked(c: Codec, s: Bytes): Unpack {
    if |s| < HEADER_SIZE then Corrupt else
    var flags, kind := s[8], s[9];
    var original, compressed := FromLe(s[10..18]), FromLe(s[18..26]);
    if FromLe(s[..8]) != BLOCK_MAGIC then BadMagic else
    var size := if flags % 2 == 1 then compressed else original;
    if |s| < HEADER_SIZE + size then Corrupt else
    var body := s[HEADER_SIZE..HEADER_SIZE + size];
    if c.checksum(body) != s[26..58] then BadChecksum else
    if flags % 2 == 1 then
      match c.decompress(ByteAlgo(kind), body, original)
      case Some(x) => Data(x)
      case None => Corrupt
    else Data(body)
  }

  lemma {:induction false} HeaderFields(flags: byte, kind: byte, original: nat, compressed: nat, checksum: Bytes,
                                        rest: Bytes)
    requires |checksum| == 32 && original < Pow256(8) && compressed < Pow256(8)
    ensures var s := Header(flags, kind, original, compressed, checksum) + rest;
      && |s| == HEADER_SIZE + |rest|
      && FromLe(s[..8]) == BLOCK_MAGIC && s[8] == flags && s[9] == kind
      && FromLe(s[10..18]) == original && FromLe(s[18..26]) == compressed && s[26..58] == checksum
      && s[58..] == rest
  {
    MagicFits();
    LeRoundTrip(BLOCK_MAGIC, 8);
    LeRoundTrip(original, 8);
    LeRoundTrip(compressed, 8);
    var m, o, p := Le(BLOCK_MAGIC, 8), Le(original, 8), Le(compressed, 8);
    var s := Header(flags, kind, original, compressed, checksum) + rest;
    assert s == m + [flags, kind] + o + p + checksum + rest;
    hide *;
    Slices(m, [flags, kind], o, p, checksum, rest);
  }

  lemma {:induction false} Slices(m: Bytes, f: Bytes, o: Bytes, p: Bytes, k: Bytes, rest: Bytes)
    requires |m| == 8 && |f| == 2 && |o| == 8 && |p| == 8 && |k| == 32
    ensures var s := m + f + o + p + k + rest;
      |s| == 58 + |rest| && s[..8] == m && s[8] == f[0] && s[9] == f[1] && s[10..18] == o && s[18..26] == p
      && s[26..58] == k && s[58..] == rest
  {
  }

  lemma {:induction false} MagicFits()
    ensures BLOCK_MAGIC < Pow256(8)
  {
    assert Pow256(2) == 0x1_0000;
    assert Pow256(4) == 0x1_0000_0000;
    assert Pow256(6) == 0x1_0000_0000_0000;
    assert Pow256(8) == 0x1_0000_0000_0000_0000;
  }

  /** A packed group unpacks to the data that was compressed. */
  lemma {:induction false} PackRoundTrip(c: Codec, a: Algo, x: Bytes, bs: nat)
    requires Lossless(c) && bs > 0 && a != Off && c.compress(a, x).Some?
    requires |x| < Pow256(8) && |c.compress(a, x).value| < Pow256(8)
    ensures Unpacked(c, Packed(c, a, c.compress(a, x).value, |x|, bs)) == Data(x)
  {
    var p := c.compress(a, x).value;
    var tail := PackedShape(c, a, p, |x|, bs);
    UnpackFramed(c, a, x, p, tail);
  }

  lemma {:induction false} PackedShape(c: Codec, a: Algo, p: Bytes, n: nat, bs: nat) returns (tail: Bytes)
    requires bs > 0
    ensures Packed(c, a, p, n, bs) == Header(FLAG_COMPRESSED, AlgoByte(a), n, |p|, c.checksum(p)) + (p + tail)
  {
    var raw := Header(FLAG_COMPRESSED, AlgoByte(a), n, |p|, c.checksum(p)) + p;
    tail := Packed(c, a, p, n, bs)[|raw|..];
  }

  lemma {:induction false} UnpackFramed(c: Codec, a: Algo, x: Bytes, p: Bytes, tail: Bytes)
    requires |c.checksum(p)| == 32 && a != Off && c.decompress(a, p, |x|) == Some(x)
    requires |x| < Pow256(8) && |p| < Pow256(8)
    ensures Unpacked(c, Header(FLAG_COMPRESSED, AlgoByte(a), |x|, |p|, c.checksum(p)) + (p + tail)) == Data(x)
  {
    hide Header, Pow256, Le, FromLe;
    var s := Header(FLAG_COMPRESSED, AlgoByte(a), |x|, |p|, c.checksum(p)) + (p + tail);
    HeaderFields(FLAG_COMPRESSED, AlgoByte(a), |x|, |p|, c.checksum(p), p + tail);
    BodyOf(s, p, tail);
  }

  lemma {:induction false} BodyOf(s: Bytes, p: Bytes, tail: Bytes)
    requires |s| == HEADER_SIZE + |p + tail| && s[HEADER_SIZE..] == p + tail
    ensures s[HEADER_SIZE..HEADER_SIZE + |p|] == p
  {
    assert s[HEADER_SIZE..HEADER_SIZE + |p|] == s[HEADER_SIZE..][..|p|];
  }

  /** Bytes are the little-endian form of the number they stand for. */
  lemma {:induction false} FromLeRoundTrip(s: Bytes)
    ensures FromLe(s) < Pow256(|s|) && Le(FromLe(s), |s|) == s
  {
    if s != [] {
      FromLeRoundTrip(s[1..]);
    }
  }

  /** Something unpacks exactly if it is a header, with the magic and the checksum of the payload, the payload and
      anything behind it: the payload itself, or what decompresses to the data. */
  lemma {:induction false} UnpackedExact(c: Codec, s: Bytes, x: Bytes)
    requires forall y {:trigger c.checksum(y)} :: |c.checksum(y)| == 32
    ensures Unpacked(c, s) == Data(x) <==>
      exists flags, kind, original, size, p, tail :: Framed(c, s, x, flags, kind, original, size, p, tail)
  {
    if Unpacked(c, s) == Data(x) {
      FramedParts(c, s, x);
    }
    if flags, kind, original, size, p, tail :| Framed(c, s, x, flags, kind, original, size, p, tail) {
      UnpackedParts(c, s, x, flags, kind, original, size, p, tail);
    }
  }

  ghost predicate Framed(c: Codec, s: Bytes, x: Bytes, flags: byte, kind: byte, original: nat, size: nat, p: Bytes,
                         tail: Bytes) {
    && original < Pow256(8) && size < Pow256(8)
    && s == Header(flags, kind, original, size, c.checksum(p)) + (p + tail)
    && if flags % 2 == 1 then |p| == size && c.decompress(if kind == 2 then Lzma else Zstd, p, original) == Some(x)
       else |p| == original && x == p
  }

  lemma {:induction false} UnpackedParts(c: Codec, s: Bytes, x: Bytes, flags: byte, kind: byte, original: nat,
                                         size: nat, p: Bytes, tail: Bytes)
    requires |c.checksum(p)| == 32 && Framed(c, s, x, flags, kind, original, size, p, tail)
    ensures Unpacked(c, s) == Data(x)
  {
    hide Header, Pow256, Le, FromLe;
    HeaderFields(flags, kind, original, size, c.checksum(p), p + tail);
    BodyOf(s, p, tail);
  }

  lemma {:induction false} FramedParts(c: Codec, s: Bytes, x: Bytes)
    requires Unpacked(c, s) == Data(x)
    ensures |s| >= HEADER_SIZE
    ensures exists flags, kind, original, size, p, tail :: Framed(c, s, x, flags, kind, original, size, p, tail)
  {
    hide Le, FromLe, Pow256;
    var flags, kind := s[8], s[9];
    var original, size := FromLe(s[10..18]), FromLe(s[18..26]);
    var n := if flags % 2 == 1 then size else original;
    var p, tail := s[HEADER_SIZE..HEADER_SIZE + n], s[HEADER_SIZE + n..];
    FromLeRoundTrip(s[..8]);
    FromLeRoundTrip(s[10..18]);
    FromLeRoundTrip(s[18..26]);
    assert s == s[..8] + [s[8], s[9]] + s[10..18] + s[18..26] + s[26..58] + (p + tail);
    assert Framed(c, s, x, flags, kind, original, size, p, tail);
  }

  lemma {:induction false} LeLength(n: nat, k: nat)
    ensures |Le(n, k)| == k
  {
    if k > 0 {
      LeLength(n / 256, k - 1);
    }
  }

  lemma {:induction false} CeilDivBounds(n: nat, bs: nat)
    requires bs > 0
    ensures CeilDiv(n, bs) * bs >= n
    ensures n > 0 ==> CeilDiv(n, bs) > 0
    ensures forall k: nat | n <= k * bs :: CeilDiv(n, bs) <= k
    ensures CeilDiv(n, bs) * bs < n + bs
  {
    var q, r := (n + bs - 1) / bs, (n + bs - 1) % bs;
    assert n + bs - 1 == q * bs + r;
    forall k: nat | n <= k * bs ensures q <= k {
      if q > k {
        assert (q - k) * bs == q * bs - k * bs;
        MulAtLeast(q - k, bs);
      }
    }
    if n > 0 && q == 0 {
      assert false;
    }
  }

  /** A packed group fills whole blocks, one for every block size started by header and payload. */
  lemma {:induction false} PackedBlocks(c: Codec, a: Algo, p: Bytes, n: nat, bs: nat)
    requires bs > 0 && |c.checksum(p)| == 32
    ensures var s := Packed(c, a, p, n, bs); var b := Split(s, bs);
      && |b| == CeilDiv(HEADER_SIZE + |p|, bs) && AllSized(b, bs) && Join(b) == s
  {
    LeLength(BLOCK_MAGIC, 8);
    LeLength(n, 8);
    LeLength(|p|, 8);
    var s := Packed(c, a, p, n, bs);
    var k := CeilDiv(HEADER_SIZE + |p|, bs);
    CeilDivBounds(HEADER_SIZE + |p|, bs);
    assert |s| == k * bs;
    DivModUnique(|s|, bs, k, 0);
    SplitSized(s, bs);
  }

  /** Part of the joined blocks. */
  lemma {:induction false} JoinSlice(b: seq<Block>, bs: nat, i: nat, j: nat)
    requires AllSized(b, bs) && i <= j <= |b|
    ensures 0 <= i * bs <= j * bs <= |Join(b)|
    ensures Join(b)[i * bs..j * bs] == Join(b[i..j])
  {
    assert b == b[..i] + (b[i..j] + b[j..]);
    JoinConcat(b[..i], b[i..j] + b[j..]);
    JoinConcat(b[i..j], b[j..]);
    JoinLength(b[..i], bs);
    JoinLength(b[i..j], bs);
    hide Join;
    Distribute(i, j, bs);
    MiddleSlice(Join(b), Join(b[..i]), Join(b[i..j]), Join(b[j..]), i * bs, j * bs);
  }

  lemma {:induction false} Distribute(i: nat, j: nat, bs: nat)
    requires i <= j
    ensures (j - i) * bs == j * bs - i * bs && 0 <= i * bs
  {
  }

  lemma {:induction false} MiddleSlice(s: Bytes, x: Bytes, y: Bytes, z: Bytes, p: int, q: int)
    requires s == x + (y + z) && |x| == p && |y| == q - p
    ensures 0 <= p <= q <= |s| && s[p..q] == y
  {
  }

  lemma {:induction false} JoinLast(b: seq<Block>, i: nat)
    requires i < |b|
    ensures Join(b[..i + 1]) == Join(b[..i]) + b[i]
  {
    var one: seq<Block> := [b[i]];
    assert b[..i + 1] == b[..i] + one;
    JoinConcat(b[..i], one);
    assert one[1..] == [];
  }
}
