/** The allocation bitmap on disk: a header in front of the map, spread over whole blocks. */
module BitmapImage {
  import opened Blocks
  import opened FileContent
  import opened FileWrites

  const BITMAP_MAGIC: nat := 0x50414D42414D424F

  /** sizeof(struct bitmap_header) */
  const BITMAP_HEADER := 56

  type Hash = Bytes -> Bytes

  function BitmapHeader(total: nat, nextFree: nat, checksum: Bytes): Bytes {
    Le(BITMAP_MAGIC, 8) + Le(total, 8) + Le(nextFree, 8) + checksum
  }

  lemma {:induction false} HeaderParts(total: nat, nextFree: nat, checksum: Bytes, rest: Bytes)
    requires |checksum| == 32 && total < Pow256(8) && nextFree < Pow256(8)
    ensures var s := BitmapHeader(total, nextFree, checksum) + rest;
      && |s| == 56 + |rest| && FromLe(s[..8]) == BITMAP_MAGIC && FromLe(s[8..16]) == total
      && FromLe(s[16..24]) == nextFree
      && s[24..56] == checksum && s[56..] == rest
  {
    BitmapMagicFits();
    LeRoundTrip(BITMAP_MAGIC, 8);
    LeRoundTrip(total, 8);
    LeRoundTrip(nextFree, 8);
    var a, b, c := Le(BITMAP_MAGIC, 8), Le(total, 8), Le(nextFree, 8);
    var s := BitmapHeader(total, nextFree, checksum) + rest;
    assert s == a + b + c + checksum + rest;
    hide Le, FromLe, Pow256;
    FourParts(a, b, c, checksum, rest);
  }

  lemma {:induction false} FourParts(a: Bytes, b: Bytes, c: Bytes, d: Bytes, rest: Bytes)
    requires |a| == 8 && |b| == 8 && |c| == 8 && |d| == 32
    ensures var s := a + b + c + d + rest;
      |s| == 56 + |rest| && s[..8] == a && s[8..16] == b && s[16..24] == c && s[24..56] == d && s[56..] == rest
  {
  }

  lemma {:induction false} BitmapMagicFits()
    ensures BITMAP_MAGIC < Pow256(8)
  {
    assert Pow256(4) == 0x1_0000_0000;
    assert Pow256(8) == 0x1_0000_0000_0000_0000;
  }

  // ----- writing

  /** Block i of a byte string spread over blocks, zero-filled past its end. */
  function Spread(s: Bytes, bs: nat, i: nat): Block {
    SliceOrZero(s, i * bs, bs)
  }

  /** obmafs3_bitmap_write: block i of the image is block i of header and map one after the other. */
  method WriteBitmap(map_: Bytes, nextFree: nat, total: nat, bs: nat, n: nat, hash: Hash) returns (blocks: seq<Block>)
    requires bs >= BITMAP_HEADER && |hash(map_)| == 32
    ensures |blocks| == n && AllSized(blocks, bs)
    ensures forall i | 0 <= i < n :: blocks[i] == Spread(BitmapHeader(total, nextFree, hash(map_)) + map_, bs, i)
  {
    hide Le;
    var header := BitmapHeader(total, nextFree, hash(map_));
    HeaderLength(total, nextFree, hash(map_));
    blocks := [];
    var remaining: nat, offset: nat := |map_|, 0;
    var i := 0;
    while i < n
      invariant 0 <= i <= n && |blocks| == i && AllSized(blocks, bs)
      invariant forall j | 0 <= j < i :: blocks[j] == Spread(header + map_, bs, j)
      invariant offset + remaining == |map_| && CopiedTo(offset, |map_|, bs, i)
    {
      var block := Zeros(bs);
      if i == 0 {
        var avail := bs - BITMAP_HEADER;
        var size := if remaining < avail then remaining else avail;
        FirstWritten(header, map_, bs, size);
        block := header + map_[offset..offset + size] + Zeros(bs - BITMAP_HEADER - size);
        offset, remaining := offset + size, remaining - size;
      } else {
        var size := if remaining < bs then remaining else bs;
        NextWritten(header, map_, bs, i, offset, size);
        block := map_[offset..offset + size] + Zeros(bs - size);
        offset, remaining := offset + size, remaining - size;
      }
      blocks := blocks + [block];
      i := i + 1;
    }
  }

  /** After i blocks: everything, or what fits into them behind the header. */
  ghost predicate CopiedTo(offset: nat, size: nat, bs: nat, i: nat) {
    if i == 0 then offset == 0 else offset == if size + BITMAP_HEADER <= i * bs then size else i * bs - BITMAP_HEADER
  }

  lemma {:induction false} HeaderLength(total: nat, nextFree: nat, checksum: Bytes)
    requires |checksum| == 32
    ensures |BitmapHeader(total, nextFree, checksum)| == BITMAP_HEADER
  {
    LeLength(BITMAP_MAGIC, 8);
    LeLength(total, 8);
    LeLength(nextFree, 8);
  }

  lemma {:induction false} FirstWritten(header: Bytes, map_: Bytes, bs: nat, size: nat)
    requires |header| == BITMAP_HEADER <= bs
    requires size == if |map_| < bs - BITMAP_HEADER then |map_| else bs - BITMAP_HEADER
    ensures header + map_[0..size] + Zeros(bs - BITMAP_HEADER - size) == Spread(header + map_, bs, 0)
    ensures CopiedTo(size, |map_|, bs, 1)
  {
    var s := header + map_;
    assert 0 * bs == 0 && 1 * bs == bs;
    if size == |map_| {
      assert map_[0..size] == map_;
    }
  }

  lemma {:induction false} NextWritten(header: Bytes, map_: Bytes, bs: nat, i: nat, offset: nat, size: nat)
    requires |header| == BITMAP_HEADER <= bs && i > 0 && offset <= |map_| && CopiedTo(offset, |map_|, bs, i)
    requires size == if |map_| - offset < bs then |map_| - offset else bs
    ensures map_[offset..offset + size] + Zeros(bs - size) == Spread(header + map_, bs, i)
    ensures CopiedTo(offset + size, |map_|, bs, i + 1)
  {
    assert (i + 1) * bs == i * bs + bs;
    MulAtLeast(i, bs);
    SpreadTail(header, map_, bs, i * bs, offset, size);
  }

  lemma {:induction false} SpreadTail(header: Bytes, map_: Bytes, bs: nat, at: nat, offset: nat, size: nat)
    requires |header| == BITMAP_HEADER
    requires offset == (if |map_| + BITMAP_HEADER <= at then |map_| else at - BITMAP_HEADER) && BITMAP_HEADER <= at
    requires size == if |map_| - offset < bs then |map_| - offset else bs
    ensures map_[offset..offset + size] + Zeros(bs - size) == SliceOrZero(header + map_, at, bs)
  {
  }

  // ----- reading

  datatype ReadResult = Ok(map_: Bytes, nextFree: nat) | WrongMagic | WrongChecksum

  /** obmafs3_bitmap_read on the blocks from bitmap_lba on: the map is what follows the header, and its
      checksum must match. */
  method ReadBitmap(blocks: seq<Block>, n: nat, size: nat, bs: nat, hash: Hash) returns (r: ReadResult)
    requires 0 < n <= |blocks| && AllSized(blocks, bs) && bs >= BITMAP_HEADER
    ensures var s := Join(blocks[..n]); |s| == n * bs && n * bs >= BITMAP_HEADER
    ensures var s := Join(blocks[..n]); var m := SliceOrZero(s, BITMAP_HEADER, size);
      r == if FromLe(s[..8]) != BITMAP_MAGIC then WrongMagic
           else if s[24..56] != hash(m) then WrongChecksum
           else Ok(m, FromLe(s[16..24]))
  {
    hide FromLe, Join;
    var first := blocks[0];
    HeadOf(blocks, n, bs);
    if FromLe(first[..8]) != BITMAP_MAGIC {
      return WrongMagic;
    }
    var nextFree := FromLe(first[16..24]);
    var m := Zeros(size);
    var offset: nat, remaining: nat := 0, size;
    var i := 0;
    while i < n
      invariant 0 <= i <= n && offset + remaining == size && |m| == size && CopiedTo(offset, size, bs, i)
      invariant i > 0 ==> m == SliceOrZero(Join(blocks[..i]), BITMAP_HEADER, size)
      invariant i == 0 ==> m == Zeros(size)
    {
      var block := blocks[i];
      if i == 0 {
        var avail := bs - BITMAP_HEADER;
        var k := if remaining < avail then remaining else avail;
        ReadFirst(blocks, bs, size, k);
        m := CopyInto(m, 0, block, BITMAP_HEADER, k);
        offset, remaining := offset + k, remaining - k;
      } else {
        var k := if remaining < bs then remaining else bs;
        ReadNext(blocks, bs, size, i, m, offset, k);
        m := CopyInto(m, offset, block, 0, k);
        offset, remaining := offset + k, remaining - k;
      }
      i := i + 1;
    }
    if first[24..56] != hash(m) {
      return WrongChecksum;
    }
    return Ok(m, nextFree);
  }

  lemma {:induction false} HeadOf(blocks: seq<Block>, n: nat, bs: nat)
    requires 0 < n <= |blocks| && AllSized(blocks, bs) && bs >= BITMAP_HEADER
    ensures var s := Join(blocks[..n]);
      |s| == n * bs && n * bs >= BITMAP_HEADER && s[..8] == blocks[0][..8] && s[16..24] == blocks[0][16..24]
        && s[24..56] == blocks[0][24..56]
  {
    JoinLength(blocks[..n], bs);
    MulAtLeast(n, bs);
    var s := Join(blocks[..n]);
    assert s == blocks[0] + Join(blocks[..n][1..]);
  }

  lemma {:induction false} ReadFirst(blocks: seq<Block>, bs: nat, size: nat, k: nat)
    requires blocks != [] && |blocks[0]| == bs >= BITMAP_HEADER
    requires k == if size < bs - BITMAP_HEADER then size else bs - BITMAP_HEADER
    ensures CopyInto(Zeros(size), 0, blocks[0], BITMAP_HEADER, k) == SliceOrZero(Join(blocks[..1]), BITMAP_HEADER, size)
    ensures CopiedTo(k, size, bs, 1)
  {
    var one := blocks[..1];
    assert one[1..] == [];
    assert Join(one) == blocks[0];
    assert 1 * bs == bs;
  }

  lemma {:induction false} ReadNext(blocks: seq<Block>, bs: nat, size: nat, i: nat, m: Bytes, offset: nat, k: nat)
    requires 0 < i < |blocks| && AllSized(blocks, bs) && bs >= BITMAP_HEADER && offset <= size == |m|
    requires CopiedTo(offset, size, bs, i)
    requires m == SliceOrZero(Join(blocks[..i]), BITMAP_HEADER, size)
    requires k == if size - offset < bs then size - offset else bs
    ensures CopyInto(m, offset, blocks[i], 0, k) == SliceOrZero(Join(blocks[..i + 1]), BITMAP_HEADER, size)
    ensures CopiedTo(offset + k, size, bs, i + 1)
  {
    JoinLast(blocks, i);
    JoinLength(blocks[..i], bs);
    NextMultiple(i, bs);
    hide Join, CopyInto, SliceOrZero;
    Extends(Join(blocks[..i]), blocks[i], size, m, offset, k, bs, i * bs);
  }

  lemma {:induction false} NextMultiple(i: nat, bs: nat)
    requires i > 0 && bs > 0
    ensures (i + 1) * bs == i * bs + bs && i * bs >= bs
  {
    MulAtLeast(i, bs);
  }

  lemma {:induction false} SliceAt(s: Bytes, from: nat, n: nat, j: nat)
    requires j < n
    ensures |SliceOrZero(s, from, n)| == n && SliceOrZero(s, from, n)[j] == if from + j < |s| then s[from + j] else 0
  {
  }

  lemma {:induction false} Extends(s: Bytes, b: Bytes, size: nat, m: Bytes, offset: nat, k: nat, bs: nat, len: nat)
    requires |s| == len >= BITMAP_HEADER && |b| == bs
    requires offset == (if size + BITMAP_HEADER <= len then size else len - BITMAP_HEADER)
    requires m == SliceOrZero(s, BITMAP_HEADER, size) && k == if size - offset < bs then size - offset else bs
    ensures |m| == size && CopyInto(m, offset, b, 0, k) == SliceOrZero(s + b, BITMAP_HEADER, size)
  {
    var x, y := CopyInto(m, offset, b, 0, k), SliceOrZero(s + b, BITMAP_HEADER, size);
    forall j | 0 <= j < size ensures x[j] == y[j] {
      SliceAt(s, BITMAP_HEADER, size, j);
      SliceAt(s + b, BITMAP_HEADER, size, j);
    }
  }

  // ----- round trip

  ghost predicate IsSpread(s: Bytes, bs: nat, blocks: seq<Block>) {
    forall i | 0 <= i < |blocks| :: blocks[i] == Spread(s, bs, i)
  }

  function ByteCount(n: nat, bs: nat): nat {
    n * bs
  }

  lemma {:induction false} LastSpread(s: Bytes, bs: nat, blocks: seq<Block>, n: nat)
    requires IsSpread(s, bs, blocks) && n + 1 == |blocks|
    ensures blocks[n] == SliceOrZero(s, ByteCount(n, bs), bs) && IsSpread(s, bs, blocks[..n])
    ensures ByteCount(n + 1, bs) == ByteCount(n, bs) + bs
  {
    hide SliceOrZero;
    assert blocks[n] == Spread(s, bs, n);
  }

  /** The joined image starts with the spread bytes. */
  lemma {:induction false} SpreadJoin(s: Bytes, bs: nat, blocks: seq<Block>)
    requires IsSpread(s, bs, blocks)
    ensures Join(blocks) == SliceOrZero(s, 0, ByteCount(|blocks|, bs))
  {
    if blocks != [] {
      var n := |blocks| - 1;
      LastSpread(s, bs, blocks, n);
      SpreadJoin(s, bs, blocks[..n]);
      assert blocks[..n + 1] == blocks;
      hide Join, SliceOrZero, IsSpread, ByteCount;
      JoinLast(blocks, n);
      SliceExtends(s, ByteCount(n, bs), bs);
    }
  }

  lemma {:induction false} SliceExtends(s: Bytes, len: nat, bs: nat)
    ensures SliceOrZero(s, 0, len) + SliceOrZero(s, len, bs) == SliceOrZero(s, 0, len + bs)
  {
    var x, y := SliceOrZero(s, 0, len) + SliceOrZero(s, len, bs), SliceOrZero(s, 0, len + bs);
    forall i | 0 <= i < len + bs ensures x[i] == y[i] {
      SliceAt(s, 0, len + bs, i);
      if i < len {
        SliceAt(s, 0, len, i);
      } else {
        SliceAt(s, len, bs, i - len);
      }
    }
  }

  /** If the blocks can hold header and map, reading gives back what was written and passes the checksum. */
  method WriteThenRead(map_: Bytes, nextFree: nat, total: nat, bs: nat, n: nat, hash: Hash) returns (r: ReadResult)
    requires bs >= BITMAP_HEADER && |hash(map_)| == 32 && nextFree < Pow256(8) && total < Pow256(8)
    requires BITMAP_HEADER + |map_| <= n * bs
    ensures r == Ok(map_, nextFree)
  {
    hide Le, FromLe, Join, Pow256, Spread;
    var blocks := WriteBitmap(map_, nextFree, total, bs, n, hash);
    ghost var header := BitmapHeader(total, nextFree, hash(map_));
    HeaderLength(total, nextFree, hash(map_));
    SpreadJoin(header + map_, bs, blocks);
    ghost var rest := Zeros(n * bs - (BITMAP_HEADER + |map_|));
    ImageParts(header, map_, n * bs, rest);
    HeaderParts(total, nextFree, hash(map_), map_ + rest);
    assert blocks[..n] == blocks;
    r := ReadBitmap(blocks, n, |map_|, bs, hash);
    MapPart(Join(blocks), map_, rest);
  }

  lemma {:induction false} ImageParts(header: Bytes, map_: Bytes, len: nat, rest: Bytes)
    requires |header| == BITMAP_HEADER && BITMAP_HEADER + |map_| <= len && rest == Zeros(len - (BITMAP_HEADER + |map_|))
    ensures SliceOrZero(header + map_, 0, len) == header + (map_ + rest)
  {
  }

  lemma {:induction false} MapPart(s: Bytes, map_: Bytes, rest: Bytes)
    requires |s| == BITMAP_HEADER + |map_ + rest| && s[BITMAP_HEADER..] == map_ + rest
    ensures SliceOrZero(s, BITMAP_HEADER, |map_|) == map_
  {
    assert s[BITMAP_HEADER..BITMAP_HEADER + |map_|] == s[BITMAP_HEADER..][..|map_|];
  }
}
