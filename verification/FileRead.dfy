/** Value-level facts about reading bytes through an extent list, and the byte view of a file. */
module FileRead {
  import opened Blocks
  import opened Extents
  import opened FileLayout
  import opened FileContent
  import opened FileWrites

  /** The search for block b: the first extent that holds it, or none if there is none. */
  ghost predicate Finds(list: seq<Ext>, b: nat, r: Option<Ext>) {
    match r
    case Some(e) => exists k: nat :: FirstWith(list, b, k) && list[k] == e
    case None => forall k | 0 <= k < |list| :: !In(list[k], b)
  }

  /** Extent k is the first to hold block b. */
  ghost predicate FirstWith(list: seq<Ext>, b: nat, k: nat) {
    k < |list| && In(list[k], b) && forall j | 0 <= j < k :: !In(list[j], b)
  }

  /** A gapless list has an extent for each of its blocks. */
  lemma {:induction false} CoveredFound(list: seq<Ext>, from: nat, to: nat, b: nat)
    requires Covers(list, from, to) && from <= b < to
    ensures !Finds(list, b, None)
  {
    if End(list[0]) <= b {
      CoveredFound(list[1..], End(list[0]), to, b);
      var k :| 0 <= k < |list[1..]| && In(list[1..][k], b);
      assert In(list[k + 1], b);
    } else {
      assert In(list[0], b);
    }
  }

  /** A list in order that leaves a gap has no extent for some block. */
  lemma {:induction false} GapFound(list: seq<Ext>, from: nat, to: nat) returns (b: nat)
    requires AllOk(list) && Sorted(list) && Within(list, to) && from <= to && !Covers(list, from, to)
    requires list != [] ==> from <= list[0].ls
    ensures from <= b < to && Finds(list, b, None)
  {
    if list == [] {
      b := from;
    } else {
      assert ExtOk(list[0]);
      var rest := list[1..];
      assert forall i | 0 <= i < |rest| :: rest[i] == list[i + 1];
      if from < list[0].ls {
        b := from;
        forall k | 0 <= k < |list| ensures !In(list[k], b) {
          assert k > 0 ==> End(list[0]) <= list[k].ls;
        }
      } else {
        SortedTail(list);
        b := GapFound(rest, End(list[0]), to);
        forall k | 0 <= k < |list| ensures !In(list[k], b) {
          assert k > 0 ==> list[k] == rest[k - 1];
        }
      }
    }
  }

  lemma {:induction false} FindsMore(a: seq<Ext>, b: seq<Ext>, x: nat, r: Option<Ext>)
    requires Finds(a, x, None) && Finds(b, x, r)
    ensures Finds(a + b, x, r)
  {
    if r.Some? {
      var k: nat :| FirstWith(b, x, k) && b[k] == r.value;
      assert FirstWith(a + b, x, |a| + k) && (a + b)[|a| + k] == r.value;
    }
  }

  lemma {:induction false} FoundIn(a: seq<Ext>, b: seq<Ext>, x: nat, e: Ext)
    requires Finds(a, x, Some(e))
    ensures Finds(a + b, x, Some(e))
  {
    var k: nat :| FirstWith(a, x, k) && a[k] == e;
    assert FirstWith(a + b, x, k) && (a + b)[k] == e;
  }

  // ----- bytes of blocks

  /** Bytes within blocks [a, b) of the joined blocks. */
  lemma {:induction false} GroupBytes(c: seq<Block>, bs: nat, a: nat, b: nat, p: nat, o: nat, n: nat)
    requires AllSized(c, bs) && a <= b <= |c| && p == a * bs && o + n <= (b - a) * bs
    ensures p + o + n <= |Join(c)| && |Join(c[a..b])| == (b - a) * bs
    ensures Join(c)[p + o..p + o + n] == Join(c[a..b])[o..o + n]
  {
    JoinSlice(c, bs, a, b);
    JoinLength(c[a..b], bs);
    Distribute(a, b, bs);
    SliceOfSlice(Join(c), p, b * bs, o, o + n);
  }

  lemma {:induction false} BlockBytes(c: seq<Block>, bs: nat, k: nat, p: nat, o: nat, n: nat)
    requires AllSized(c, bs) && k < |c| && p == k * bs && o + n <= bs
    ensures p + o + n <= |Join(c)| && Join(c)[p + o..p + o + n] == c[k][o..o + n]
  {
    GroupBytes(c, bs, k, k + 1, p, o, n);
    assert c[k..k + 1] == [c[k]];
    var one: seq<Block> := [c[k]];
    assert one[1..] == [];
    assert Join(one) == c[k];
  }

  // ----- the decompression cache of a read

  /** The last decompressed extent: where its physical blocks start, and its data. */
  datatype Cache = Empty | Cached(start: Lba, bytes: Bytes)

  ghost predicate UnpacksTo(dev: Device, c: Codec, start: Lba, n: nat, x: Bytes) {
    start + n <= |dev| && Unpacked(c, Join(dev[start..start + n])) == Data(x)
  }

  ghost predicate CacheOk(dev: Device, c: Codec, cache: Cache) {
    cache.Cached? ==> exists n :: n >= 0 && UnpacksTo(dev, c, cache.start, n, cache.bytes)
  }

  /** Bytes behind the payload do not matter. */
  lemma {:induction false} UnpackedPrefix(c: Codec, s: Bytes, t: Bytes)
    requires Unpacked(c, s).Data?
    ensures Unpacked(c, s + t) == Unpacked(c, s)
  {
    hide FromLe;
    var u := s + t;
    assert u[..8] == s[..8] && u[10..18] == s[10..18] && u[18..26] == s[18..26] && u[26..58] == s[26..58];
    var size := if s[8] % 2 == 1 then FromLe(s[18..26]) else FromLe(s[10..18]);
    assert u[HEADER_SIZE..HEADER_SIZE + size] == s[HEADER_SIZE..HEADER_SIZE + size];
  }

  lemma {:induction false} UnpacksMore(dev: Device, c: Codec, start: Lba, n: nat, n': nat, x: Bytes)
    requires n <= n' && start + n' <= |dev| && UnpacksTo(dev, c, start, n, x)
    ensures UnpacksTo(dev, c, start, n', x)
  {
    hide Unpacked;
    var a, b := dev[start..start + n], dev[start + n..start + n'];
    assert dev[start..start + n'] == a + b;
    JoinConcat(a, b);
    UnpackedPrefix(c, Join(a), Join(b));
  }

  /** A cache that matches only in the start of the physical blocks holds the data that the extent unpacks to. */
  lemma {:induction false} CacheHit(dev: Device, c: Codec, start: Lba, n: nat, n': nat, x: Bytes, x': Bytes)
    requires UnpacksTo(dev, c, start, n, x) && UnpacksTo(dev, c, start, n', x')
    ensures x == x'
  {
    hide Unpacked, Join;
    if n <= n' {
      UnpacksMore(dev, c, start, n, n', x);
    } else {
      UnpacksMore(dev, c, start, n', n, x');
    }
  }

  // ----- positions

  /** Where byte position pos lies. */
  lemma {:induction false} Position(pos: nat, bs: nat)
    requires bs > 0
    ensures pos == pos / bs * bs + pos % bs && pos % bs < bs
  {
  }

  /** Bytes left in an extent from position pos on. */
  function Available(e: Ext, pos: nat, bs: nat): int
    requires bs > 0
  {
    (End(e) - pos / bs) * bs - pos % bs
  }

  lemma {:induction false} AvailablePositive(e: Ext, pos: nat, bs: nat)
    requires bs > 0 && In(e, pos / bs)
    ensures Available(e, pos, bs) > 0 && Available(e, pos, bs) == End(e) * bs - pos
  {
    var lb := pos / bs;
    Position(pos, bs);
    assert End(e) * bs == (End(e) - lb) * bs + lb * bs;
    MulAtLeast(End(e) - lb, bs);
  }

  /** A step of the block-wise copy: the next chunk starts at a block boundary, or none is left. */
  lemma {:induction false} NextChunk(pos: nat, consumed: nat, chunk: nat, want: nat, bs: nat)
    requires bs > 0 && consumed < want && (consumed == 0 || (pos % bs + consumed) % bs == 0)
    requires chunk
      == (if want - consumed > bs - (if consumed == 0 then pos % bs else 0)
          then bs - (if consumed == 0 then pos % bs else 0) else want - consumed)
    ensures chunk > 0 && (consumed + chunk == want || (pos % bs + (consumed + chunk)) % bs == 0)
    ensures (pos + consumed) / bs == pos / bs + (pos % bs + consumed) / bs
    ensures (pos + consumed) % bs == if consumed == 0 then pos % bs else 0
  {
    var lb, off := pos / bs, pos % bs;
    Position(pos, bs);
    var q, r := (off + consumed) / bs, (off + consumed) % bs;
    assert off + consumed == q * bs + r;
    assert pos + consumed == (lb + q) * bs + r by { assert (lb + q) * bs == lb * bs + q * bs; }
    DivModUnique(pos + consumed, bs, lb + q, r);
    if consumed == 0 {
      DivModUnique(off, bs, 0, off);
      if chunk == bs - off {
        DivModUnique(bs, bs, 1, 0);
      }
    } else if chunk == bs {
      assert off + (consumed + chunk) == (q + 1) * bs;
      DivModUnique(off + (consumed + chunk), bs, q + 1, 0);
    }
  }

  // ----- what a read returns, on any list

  /** The start of the last compressed extent that a read from block `from` on passes before extent i. */
  function LastPacked(list: seq<Ext>, from: nat, i: nat): Option<Lba>
    requires i <= |list|
  {
    if i == 0 then None
    else if !Plain(list[i - 1]) && End(list[i - 1]) > from then Some(list[i - 1].ps)
    else LastPacked(list, from, i - 1)
  }

  ghost predicate Unpacks(dev: Device, c: Codec, e: Ext) {
    exists x :: UnpacksTo(dev, c, e.ps, e.pc, x)
  }

  /** Extent k gives block b to a read from block `from` on: its block is on the device, or it unpacks, or the last
      compressed extent that the read has passed starts at the same physical block. */
  ghost predicate Serves(dev: Device, c: Codec, list: seq<Ext>, from: nat, k: nat, b: nat) {
    && k < |list| && In(list[k], b)
    && if Plain(list[k]) then list[k].ps + (b - list[k].ls) < |dev|
       else LastPacked(list, from, k) == Some(list[k].ps) || Unpacks(dev, c, list[k])
  }

  /** Some extent gives the block of position pos to a read from position `start` on. */
  ghost predicate Served(dev: Device, c: Codec, bs: nat, list: seq<Ext>, start: nat, pos: nat)
    requires bs > 0
  {
    exists k: nat :: Serves(dev, c, list, start / bs, k, pos / bs)
  }

  /** Byte y is what the extent shows at position pos: the device's byte, or the unpacked one. Behind the unpacked data
      it may be anything. */
  ghost predicate ByteOf(dev: Device, c: Codec, bs: nat, e: Ext, pos: nat, y: byte)
    requires bs > 0
  {
    && In(e, pos / bs)
    && if Plain(e) then
         var x := e.ps + (pos / bs - e.ls);
         x < |dev| && pos % bs < |dev[x]| && dev[x][pos % bs] == y
       else exists n, x :: n >= 0 && UnpackedByte(dev, c, bs, e, n, x, pos, y)
  }

  ghost predicate UnpackedByte(dev: Device, c: Codec, bs: nat, e: Ext, n: nat, x: Bytes, pos: nat, y: byte)
    requires bs > 0
  {
    var at := (pos / bs - e.ls) * bs + pos % bs;
    UnpacksTo(dev, c, e.ps, n, x) && (0 <= at < |x| ==> x[at] == y)
  }

  lemma {:induction false} PlainByteShown(dev: Device, c: Codec, bs: nat, e: Ext, content: seq<Block>, pos: nat,
                                           y: byte)
    requires bs > 0 && AllSized(content, bs) && ExtShows(dev, c, e, content) && Plain(e)
    requires ByteOf(dev, c, bs, e, pos, y)
    ensures pos < |Join(content)| && Join(content)[pos] == y
  {
    hide Join;
    var b, o := pos / bs, pos % bs;
    Position(pos, bs);
    assert dev[e.ps..e.ps + e.pc][b - e.ls] == content[e.ls..End(e)][b - e.ls];
    BlockBytes(content, bs, b, b * bs, o, 1);
    SingleByte(content[b], o);
    SingleByte(Join(content), pos);
  }

  lemma {:induction false} SingleByte(s: Bytes, i: nat)
    requires i < |s|
    ensures s[i..i + 1] == [s[i]]
  {
  }

  lemma {:induction false} PackedByteShown(dev: Device, c: Codec, bs: nat, e: Ext, content: seq<Block>, pos: nat,
                                           y: byte)
    requires bs > 0 && AllSized(content, bs) && ExtShows(dev, c, e, content) && ByteOf(dev, c, bs, e, pos, y)
    requires !Plain(e)
    ensures pos < |Join(content)| && Join(content)[pos] == y
  {
    hide Join, Unpacked, AllSized;
    var b, o := pos / bs, pos % bs;
    Position(pos, bs);
    var at, z := (b - e.ls) * bs + o, Join(content[e.ls..End(e)]);
    var n: nat, x :| UnpackedByte(dev, c, bs, e, n, x, pos, y);
    CacheHit(dev, c, e.ps, n, e.pc, x, z);
    hide UnpacksTo;
    InGroup(e, bs, b, o);
    GroupBytes(content, bs, e.ls, End(e), e.ls * bs, at, 1);
    Distribute(e.ls, b, bs);
    SingleByte(z, at);
    SingleByte(Join(content), pos);
  }

  /** What an extent shows at a position is the byte of any content that it shows. */
  lemma {:induction false} ByteShown(dev: Device, c: Codec, bs: nat, e: Ext, content: seq<Block>, pos: nat,
                                           y: byte)
    requires bs > 0 && AllSized(content, bs) && ExtShows(dev, c, e, content) && ByteOf(dev, c, bs, e, pos, y)
    ensures pos < |Join(content)| && Join(content)[pos] == y
  {
    hide ByteOf, ExtShows, AllSized, Join;
    if Plain(e) {
      PlainByteShown(dev, c, bs, e, content, pos, y);
    } else {
      PackedByteShown(dev, c, bs, e, content, pos, y);
    }
  }

  lemma {:induction false} InGroup(e: Ext, bs: nat, b: nat, o: nat)
    requires e.ls <= b < End(e) && o < bs
    ensures 0 <= (b - e.ls) * bs + o && (b - e.ls) * bs + o + 1 <= (End(e) - e.ls) * bs
  {
    MulMonotone(b - e.ls + 1, End(e) - e.ls, bs);
    assert (b - e.ls + 1) * bs == (b - e.ls) * bs + bs;
  }

  /** In a list in order at most one extent holds a block. */
  lemma {:induction false} OneHolder(list: seq<Ext>, j: nat, k: nat, b: nat)
    requires AllOk(list) && Sorted(list) && j < |list| && k < |list| && In(list[j], b) && In(list[k], b)
    ensures j == k
  {
  }

  /** Nothing before extent i reaches block b, and everything from i on ends behind it. */
  ghost predicate PassedTo(list: seq<Ext>, i: nat, b: nat) {
    && i <= |list| && (forall k | 0 <= k < i :: End(list[k]) <= b) && (forall k | i <= k < |list| :: b < End(list[k]))
  }

  lemma {:induction false} FirstPassed(list: seq<Ext>, b: nat) returns (i: nat)
    requires AllOk(list) && Sorted(list)
    ensures PassedTo(list, i, b) && LastPacked(list, b, i) == None
  {
    i := 0;
    while i < |list| && End(list[i]) <= b
      invariant i <= |list| && (forall k | 0 <= k < i :: End(list[k]) <= b) && LastPacked(list, b, i) == None
    {
      i := i + 1;
    }
    forall k | i <= k < |list| ensures b < End(list[k]) {
      assert ExtOk(list[k]);
    }
  }

  lemma {:induction false} NextPassed(list: seq<Ext>, i: nat, b: nat)
    requires AllOk(list) && Sorted(list) && PassedTo(list, i, b) && i < |list|
    ensures PassedTo(list, i + 1, End(list[i]))
  {
    forall k | 0 <= k < i ensures End(list[k]) <= End(list[i]) {
    }
    forall k | i < k < |list| ensures End(list[i]) < End(list[k]) {
      assert ExtOk(list[k]);
    }
  }

  // ----- the byte view of a file

  /** The bytes of a file of the given size. */
  function FileBytes(content: seq<Block>, size: nat): Bytes
    requires size <= |Join(content)|
  {
    Join(content)[..size]
  }

  lemma {:induction false} HeldSize(content: seq<Block>, bs: nat, size: nat)
    requires bs > 0 && AllSized(content, bs) && |content| == CeilDiv(size, bs)
    ensures size <= |Join(content)|
  {
    JoinLength(content, bs);
    CeilDivBounds(size, bs);
  }

  /** What a plain byte array holds after a write that leaves no hole. */
  function BytesWritten(s: Bytes, offset: nat, buf: Bytes): Bytes
    requires offset <= |s|
  {
    s[..offset] + buf + (if offset + |buf| < |s| then s[offset + |buf|..] else [])
  }

  /** The block-level result of a write is the byte array's. */
  lemma {:induction false} WrittenBytes(content: seq<Block>, bs: nat, size: nat, offset: nat, buf: Bytes)
    requires bs > 0 && AllSized(content, bs) && |content| == CeilDiv(size, bs) && offset <= size
    requires size <= |Join(content)|
    ensures var size' := NewSize(size, offset, |buf|);
      var content' := Written(content, CeilDiv(size', bs), bs, offset, buf);
      && size' <= |Join(content')|
      && FileBytes(content', size') == BytesWritten(FileBytes(content, size), offset, buf)
  {
    hide Join, OverlayBlocks, AllSized;
    var size' := NewSize(size, offset, |buf|);
    var n := CeilDiv(size', bs);
    CeilDivMonotone(size, size', bs);
    var x := Extended(content, n, bs);
    ExtendedSized(content, n, bs);
    HeldSize(x, bs, size');
    OverlayJoin(x, 0, offset, buf);
    ExtendedJoin(content, n, bs);
    OverlaidBytes(Join(content), Join(x), size, offset, buf);
  }

  lemma {:induction false} ExtendedSized(content: seq<Block>, n: nat, bs: nat)
    requires AllSized(content, bs) && |content| <= n
    ensures AllSized(Extended(content, n, bs), bs) && |Extended(content, n, bs)| == n
  {
  }

  lemma {:induction false} ExtendedJoin(content: seq<Block>, n: nat, bs: nat)
    requires |content| <= n
    ensures |Join(content)| <= |Join(Extended(content, n, bs))|
    ensures Join(Extended(content, n, bs))[..|Join(content)|] == Join(content)
  {
    var z := seq(n - |content|, _ => Zeros(bs));
    JoinConcat(content, z);
    assert Extended(content, n, bs) == content + z;
  }

  lemma {:induction false} OverlaidBytes(s: Bytes, x: Bytes, size: nat, offset: nat, buf: Bytes)
    requires |s| <= |x| && x[..|s|] == s && offset <= size <= |s|
    requires NewSize(size, offset, |buf|) <= |x|
    ensures Overlay(x, 0, offset, buf)[..NewSize(size, offset, |buf|)] == BytesWritten(s[..size], offset, buf)
  {
    var a, b := Overlay(x, 0, offset, buf)[..NewSize(size, offset, |buf|)], BytesWritten(s[..size], offset, buf);
    assert |a| == |b|;
    forall i | 0 <= i < |a| ensures a[i] == b[i] {
      assert i < |s| ==> x[i] == x[..|s|][i];
    }
  }

  /** The block-level result of a truncation is the byte array's. */
  lemma {:induction false} ShrunkBytes(content: seq<Block>, bs: nat, size: nat, newsize: nat)
    requires bs > 0 && AllSized(content, bs) && |content| == CeilDiv(size, bs) && newsize <= size <= |Join(content)|
    ensures CeilDiv(newsize, bs) <= |content|
    ensures var content' := content[..CeilDiv(newsize, bs)];
      newsize <= |Join(content')| && FileBytes(content', newsize) == FileBytes(content, size)[..newsize]
  {
    var n := CeilDiv(newsize, bs);
    CeilDivMonotone(newsize, size, bs);
    SizedPrefix(content, n, bs);
    HeldSize(content[..n], bs, newsize);
    hide Join, CeilDiv;
    JoinPrefix(content, n, newsize, size);
  }

  lemma {:induction false} SizedPrefix(content: seq<Block>, n: nat, bs: nat)
    requires AllSized(content, bs) && n <= |content|
    ensures AllSized(content[..n], bs)
  {
  }

  lemma {:induction false} JoinPrefix(content: seq<Block>, n: nat, k: nat, size: nat)
    requires n <= |content| && k <= |Join(content[..n])| && k <= size <= |Join(content)|
    ensures Join(content[..n])[..k] == Join(content)[..size][..k]
  {
    hide Join;
    assert content == content[..n] + content[n..];
    JoinConcat(content[..n], content[n..]);
  }
}
