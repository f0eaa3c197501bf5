/** What an extent list shows of a device, and what a byte-level write does to it. */
module FileContent {
  import opened Blocks
  import opened Extents
  import opened Coalescing

  type Device = seq<Block>

  /** The device content of an extent is the given logical blocks: literally, or after unpacking. */
  ghost predicate ExtShows(dev: Device, c: Codec, e: Ext, content: seq<Block>) {
    && End(e) <= |content| && e.ps + e.pc <= |dev|
    && if Plain(e) then dev[e.ps..e.ps + e.pc] == content[e.ls..End(e)]
       else Unpacked(c, Join(dev[e.ps..e.ps + e.pc])) == Data(Join(content[e.ls..End(e)]))
  }

  ghost predicate Shows(dev: Device, c: Codec, list: seq<Ext>, content: seq<Block>) {
    forall i | 0 <= i < |list| :: ExtShows(dev, c, list[i], content)
  }

  lemma {:induction false} ShowsConcat(dev: Device, c: Codec, a: seq<Ext>, b: seq<Ext>, content: seq<Block>)
    ensures Shows(dev, c, a + b, content) <==> Shows(dev, c, a, content) && Shows(dev, c, b, content)
  {
    var t := a + b;
    assert forall i | 0 <= i < |a| :: t[i] == a[i];
    assert forall i | 0 <= i < |b| :: t[|a| + i] == b[i];
    if Shows(dev, c, a, content) && Shows(dev, c, b, content) {
      forall i | 0 <= i < |t| ensures ExtShows(dev, c, t[i], content) {
        assert t[i] == if i < |a| then a[i] else b[i - |a|];
      }
    }
  }

  /** A part of an uncompressed extent shows the same blocks. */
  lemma {:induction false} PartShows(dev: Device, c: Codec, e: Ext, content: seq<Block>, skip: nat, n: nat)
    requires ExtShows(dev, c, e, content) && Plain(e) && skip + n <= e.lc
    ensures ExtShows(dev, c, Ext(e.ls + skip, n, e.ps + skip, n), content)
  {
    SliceOfSlice(dev, e.ps, e.ps + e.pc, skip, skip + n);
    SliceOfSlice(content, e.ls, End(e), skip, skip + n);
  }

  lemma {:induction false} KeepLeftShows(dev: Device, c: Codec, list: seq<Ext>, content: seq<Block>, x: nat)
    requires Shows(dev, c, list, content)
    ensures Shows(dev, c, KeepLeft(list, x), content)
  {
    if list != [] {
      var e, rest := list[0], list[1..];
      assert forall i | 0 <= i < |rest| :: rest[i] == list[i + 1];
      KeepLeftShows(dev, c, rest, content, x);
      assert ExtShows(dev, c, list[0], content);
      if !(End(e) <= x) && e.ls < x && Plain(e) {
        PartShows(dev, c, e, content, 0, x - e.ls);
      }
      ShowsConcat(dev, c, TrimLeft(e, x), KeepLeft(rest, x), content);
    }
  }

  lemma {:induction false} KeepRightShows(dev: Device, c: Codec, list: seq<Ext>, content: seq<Block>, x: nat)
    requires Shows(dev, c, list, content)
    ensures Shows(dev, c, KeepRight(list, x), content)
  {
    if list != [] {
      var e, rest := list[0], list[1..];
      assert forall i | 0 <= i < |rest| :: rest[i] == list[i + 1];
      KeepRightShows(dev, c, rest, content, x);
      assert ExtShows(dev, c, list[0], content);
      if e.ls < x && End(e) > x && Plain(e) {
        PartShows(dev, c, e, content, x - e.ls, End(e) - x);
      }
      ShowsConcat(dev, c, TrimRight(e, x), KeepRight(rest, x), content);
    }
  }

  lemma {:induction false} MergeShows(dev: Device, c: Codec, p: Ext, e: Ext, content: seq<Block>)
    requires Mergeable(p, e) && ExtShows(dev, c, p, content) && ExtShows(dev, c, e, content)
    ensures ExtShows(dev, c, Merge(p, e), content)
  {
    assert dev[p.ps..e.ps + e.pc] == dev[p.ps..p.ps + p.pc] + dev[e.ps..e.ps + e.pc];
    assert content[p.ls..End(e)] == content[p.ls..End(p)] + content[e.ls..End(e)];
  }

  lemma {:induction false} CoalesceShows(dev: Device, c: Codec, list: seq<Ext>, content: seq<Block>)
    requires Shows(dev, c, list, content)
    ensures Shows(dev, c, Coalesce(list), content)
  {
    if list != [] {
      var a, e := list[..|list| - 1], list[|list| - 1];
      assert list == a + [e];
      ShowsConcat(dev, c, a, [e], content);
      CoalesceShows(dev, c, a, content);
      var acc := Coalesce(a);
      assert ExtShows(dev, c, [e][0], content);
      if acc != [] && Mergeable(acc[|acc| - 1], e) {
        var b, p := acc[..|acc| - 1], acc[|acc| - 1];
        assert acc == b + [p];
        ShowsConcat(dev, c, b, [p], content);
        MergeShows(dev, c, p, e, content);
        ShowsConcat(dev, c, b, [Merge(p, e)], content);
      } else {
        ShowsConcat(dev, c, acc, [e], content);
      }
    }
  }

  // ----- frames

  /** Devices that agree on the owned blocks show the same. */
  ghost predicate SameOn(dev: Device, dev': Device, m: multiset<Lba>) {
    |dev| == |dev'| && forall x | x in m && x < |dev| :: dev[x] == dev'[x]
  }

  lemma {:induction false} ExtFrame(dev: Device, dev': Device, c: Codec, e: Ext, content: seq<Block>)
    requires ExtShows(dev, c, e, content) && SameOn(dev, dev', multiset(Range(e.ps, e.pc)))
    ensures ExtShows(dev', c, e, content)
  {
    forall x | e.ps <= x < e.ps + e.pc ensures dev[x] == dev'[x] {
      assert Range(e.ps, e.pc)[x - e.ps] == x;
      assert x in multiset(Range(e.ps, e.pc));
    }
    assert dev[e.ps..e.ps + e.pc] == dev'[e.ps..e.ps + e.pc];
  }

  lemma {:induction false} ShowsFrame(dev: Device, dev': Device, c: Codec, list: seq<Ext>, content: seq<Block>)
    requires Shows(dev, c, list, content) && SameOn(dev, dev', Owned(list))
    ensures Shows(dev', c, list, content)
  {
    forall i | 0 <= i < |list| ensures ExtShows(dev', c, list[i], content) {
      OwnedMember(list, i);
      ExtFrame(dev, dev', c, list[i], content);
    }
  }

  lemma {:induction false} SameOnRefl(dev: Device, m: multiset<Lba>)
    ensures SameOn(dev, dev, m)
  {
  }

  lemma {:induction false} SameOnTrans(a: Device, b: Device, c: Device, m: multiset<Lba>)
    requires SameOn(a, b, m) && SameOn(b, c, m)
    ensures SameOn(a, c, m)
  {
  }

  lemma {:induction false} SameOnParts(dev: Device, dev': Device, a: multiset<Lba>, b: multiset<Lba>)
    requires SameOn(dev, dev', a + b)
    ensures SameOn(dev, dev', a) && SameOn(dev, dev', b)
  {
    forall x | x in a ensures x in a + b {
    }
    forall x | x in b ensures x in a + b {
    }
  }

  /** Only the covered blocks of the content matter. */
  lemma {:induction false} ShowsPrefix(dev: Device, c: Codec, list: seq<Ext>, content: seq<Block>, content': seq<Block>)
    requires Shows(dev, c, list, content)
    requires forall i | 0 <= i < |list| ::
      End(list[i]) <= |content'| && content'[list[i].ls..End(list[i])] == content[list[i].ls..End(list[i])]
    ensures Shows(dev, c, list, content')
  {
    forall i | 0 <= i < |list| ensures ExtShows(dev, c, list[i], content') {
      assert ExtShows(dev, c, list[i], content);
    }
  }

  // ----- byte-level writes

  /** The bytes s, which start at file offset base, after `buf` was written at file offset `offset`. */
  function Overlay(s: Bytes, base: nat, offset: nat, buf: Bytes): Bytes {
    seq(|s|, k requires 0 <= k < |s| =>
      if offset <= base + k < offset + |buf| then buf[base + k - offset] else s[k])
  }

  /** The same, block by block. */
  function OverlayBlocks(b: seq<Block>, base: nat, offset: nat, buf: Bytes): seq<Block> {
    if b == [] then [] else [Overlay(b[0], base, offset, buf)] + OverlayBlocks(b[1..], base + |b[0]|, offset, buf)
  }

  lemma {:induction false} OverlayConcat(a: Bytes, b: Bytes, base: nat, offset: nat, buf: Bytes)
    ensures Overlay(a + b, base, offset, buf) == Overlay(a, base, offset, buf) + Overlay(b, base + |a|, offset, buf)
  {
  }

  lemma {:induction false} OverlayJoin(b: seq<Block>, base: nat, offset: nat, buf: Bytes)
    ensures Join(OverlayBlocks(b, base, offset, buf)) == Overlay(Join(b), base, offset, buf)
    ensures |OverlayBlocks(b, base, offset, buf)| == |b|
    ensures forall bs | AllSized(b, bs) :: AllSized(OverlayBlocks(b, base, offset, buf), bs)
  {
    var t := OverlayBlocks(b, base, offset, buf);
    if b != [] {
      OverlayJoin(b[1..], base + |b[0]|, offset, buf);
      assert t[1..] == OverlayBlocks(b[1..], base + |b[0]|, offset, buf);
      OverlayConcat(b[0], Join(b[1..]), base, offset, buf);
      forall bs | AllSized(b, bs) ensures AllSized(t, bs) {
        assert |b[0]| == bs;
        assert AllSized(b[1..], bs);
        forall i | 0 <= i < |t| ensures |t[i]| == bs {
          assert i > 0 ==> t[i] == t[1..][i - 1];
        }
      }
    }
  }

  lemma {:induction false} OverlayBlocksConcat(a: seq<Block>, b: seq<Block>, base: nat, offset: nat, buf: Bytes)
    ensures OverlayBlocks(a + b, base, offset, buf)
      == OverlayBlocks(a, base, offset, buf) + OverlayBlocks(b, base + |Join(a)|, offset, buf)
  {
    if a == [] {
      assert a + b == b;
    } else {
      assert (a + b)[1..] == a[1..] + b;
      OverlayBlocksConcat(a[1..], b, base + |a[0]|, offset, buf);
    }
  }

  /** Blocks that the write does not reach stay as they are. */
  lemma {:induction false} OverlayOutside(b: seq<Block>, base: nat, offset: nat, buf: Bytes)
    requires base + |Join(b)| <= offset || offset + |buf| <= base
    ensures OverlayBlocks(b, base, offset, buf) == b
  {
    if b != [] {
      assert Overlay(b[0], base, offset, buf) == b[0];
      OverlayOutside(b[1..], base + |b[0]|, offset, buf);
    }
  }

  /** The copy done into the group buffer: from buf + srcOff, n bytes, to position destOff. */
  function CopyInto(g: Bytes, destOff: nat, buf: Bytes, srcOff: nat, n: nat): Bytes
    requires destOff + n <= |g| && srcOff + n <= |buf|
  {
    g[..destOff] + buf[srcOff..srcOff + n] + g[destOff + n..]
  }

  lemma {:induction false} CopyIsOverlay(g: Bytes, base: nat, offset: nat, buf: Bytes, ws: nat, we: nat)
    requires ws == (if offset > base then offset else base)
    requires we == (if offset + |buf| < base + |g| then offset + |buf| else base + |g|)
    ensures we > ws ==> CopyInto(g, ws - base, buf, ws - offset, we - ws) == Overlay(g, base, offset, buf)
    ensures we <= ws ==> g == Overlay(g, base, offset, buf)
  {
  }

  // ----- stored groups

  /** The block form of a group: as it is, or packed into fewer blocks. */
  ghost predicate Encodes(c: Codec, blocks: seq<Block>, out: seq<Block>) {
    if |out| == |blocks| then out == blocks else Unpacked(c, Join(out)) == Data(Join(blocks))
  }

  /** Physical blocks that a group takes: fewer than its own only if it is full and compression saves some. */
  function StoredBlocks(c: Codec, a: Algo, blocks: seq<Block>, bs: nat): nat
    requires bs > 0
  {
    if a == Off || |blocks| != GROUP then |blocks|
    else
      match c.compress(a, Join(blocks))
      case None => |blocks|
      case Some(p) =>
        var needed := CeilDiv(HEADER_SIZE + |p|, bs);
        if needed < |blocks| then needed else |blocks|
  }

  /** A full group is stored compressed exactly when that saves a block, and then in the fewest blocks that hold header
      and payload. */
  lemma {:induction false} StoredLeast(c: Codec, a: Algo, blocks: seq<Block>, bs: nat)
    requires bs > 0
    ensures StoredBlocks(c, a, blocks, bs) <= |blocks|
    ensures StoredBlocks(c, a, blocks, bs) < |blocks| ==>
      && a != Off && |blocks| == GROUP && c.compress(a, Join(blocks)).Some?
      && HEADER_SIZE + |c.compress(a, Join(blocks)).value| <= StoredBlocks(c, a, blocks, bs) * bs
    ensures a != Off && |blocks| == GROUP && c.compress(a, Join(blocks)).Some? ==>
      forall k: nat | HEADER_SIZE + |c.compress(a, Join(blocks)).value| <= k * bs :: StoredBlocks(c, a, blocks, bs) <= k
  {
    if a != Off && |blocks| == GROUP && c.compress(a, Join(blocks)).Some? {
      CeilDivBounds(HEADER_SIZE + |c.compress(a, Join(blocks)).value|, bs);
    }
  }

  lemma {:induction false} LessTimes(a: nat, b: nat, bs: nat)
    requires a <= b
    ensures a * bs <= b * bs && (a == 0 ==> a * bs == 0)
  {
  }

  lemma {:induction false} FewerBlocks(n: nat, bs: nat)
    requires bs > 0 && CeilDiv(HEADER_SIZE + n, bs) < GROUP
    ensures n < GROUP * bs && 0 < CeilDiv(HEADER_SIZE + n, bs)
  {
    var k := CeilDiv(HEADER_SIZE + n, bs);
    CeilDivBounds(HEADER_SIZE + n, bs);
    hide CeilDiv;
    LessTimes(k, GROUP, bs);
  }

  /** A compressed group that saves blocks decodes to the group. */
  lemma {:induction false} CompressedGroup(c: Codec, a: Algo, blocks: seq<Block>, p: Bytes, bs: nat)
    requires bs > 0 && Lossless(c) && a != Off && AllSized(blocks, bs) && |blocks| == GROUP && GROUP * bs < Pow256(8)
    requires c.compress(a, Join(blocks)) == Some(p) && CeilDiv(HEADER_SIZE + |p|, bs) < |blocks|
    ensures var out := Split(Packed(c, a, p, |Join(blocks)|, bs), bs);
      |out| == CeilDiv(HEADER_SIZE + |p|, bs) && 0 < |out| < |blocks| && AllSized(out, bs) && Encodes(c, blocks, out)
  {
    hide Join, Split, Packed, Unpacked, Header, Pow256;
    JoinLength(blocks, bs);
    FewerBlocks(|p|, bs);
    PackedBlocks(c, a, p, |Join(blocks)|, bs);
    PackRoundTrip(c, a, Join(blocks), bs);
  }

  lemma {:induction false} GroupShown(dev: Device, c: Codec, blocks: seq<Block>, out: seq<Block>, ps: Lba)
    requires ps + |out| <= |dev| && dev[ps..ps + |out|] == out && Encodes(c, blocks, out)
    ensures ExtShows(dev, c, Ext(0, |blocks|, ps, |out|), blocks)
  {
    assert blocks[0..|blocks|] == blocks;
  }

  /** A stored group shows its blocks at any logical position that holds them. */
  lemma {:induction false} GroupAt(dev: Device, c: Codec, blocks: seq<Block>, ps: Lba, pc: nat, content: seq<Block>,
                                   ls: nat)
    requires ExtShows(dev, c, Ext(0, |blocks|, ps, pc), blocks)
    requires ls + |blocks| <= |content| && content[ls..ls + |blocks|] == blocks
    ensures ExtShows(dev, c, Ext(ls, |blocks|, ps, pc), content)
  {
    assert blocks[0..|blocks|] == blocks;
  }

  // ----- reading blocks of an extent

  /** Bytes [from, from + n) of s, zero-filled past its end. */
  function SliceOrZero(s: Bytes, from: nat, n: nat): Bytes {
    if from + n <= |s| then s[from..from + n]
    else if from <= |s| then s[from..] + Zeros(n - (|s| - from))
    else Zeros(n)
  }

  lemma {:induction false} SliceSize(s: Bytes, from: nat, count: nat, bs: nat)
    requires bs > 0
    ensures var b := Split(SliceOrZero(s, from, count * bs), bs); |b| == count && AllSized(b, bs)
  {
    var t := SliceOrZero(s, from, count * bs);
    assert |t| == count * bs;
    SplitSized(t, bs);
    DivModUnique(|t|, bs, count, 0);
  }

  /** The unpacked bytes of a compressed extent hold the logical blocks it shows. */
  lemma {:induction false} UnpackedSlice(dev: Device, c: Codec, e: Ext, content: seq<Block>, bs: nat, off: nat,
                                         count: nat)
    requires bs > 0 && AllSized(content, bs) && ExtShows(dev, c, e, content) && !Plain(e) && off + count <= e.lc
    ensures var s := Unpacked(c, Join(dev[e.ps..e.ps + e.pc]));
      s.Data? && Split(SliceOrZero(s.bytes, off * bs, count * bs), bs) == content[e.ls + off..e.ls + off + count]
  {
    hide Unpacked;
    BlocksOfJoin(content[e.ls..End(e)], bs, off, count);
    SliceOfSlice(content, e.ls, End(e), off, off + count);
  }

  lemma {:induction false} BlocksOfJoin(b: seq<Block>, bs: nat, off: nat, count: nat)
    requires bs > 0 && AllSized(b, bs) && off + count <= |b|
    ensures Split(SliceOrZero(Join(b), off * bs, count * bs), bs) == b[off..off + count]
  {
    JoinSlice(b, bs, off, off + count);
    assert (off + count) * bs == off * bs + count * bs;
    SplitJoin(b[off..off + count], bs);
  }

  // ----- assembling a group

  /** Blocks [gs, ge) of the content as far as the list holds them, zero elsewhere. */
  ghost function ListView(list: seq<Ext>, content: seq<Block>, gs: nat, ge: nat, bs: nat): seq<Block>
    requires gs <= ge <= |content|
  {
    seq(ge - gs, i requires 0 <= i < ge - gs => if Has(list, gs + i) then content[gs + i] else Zeros(bs))
  }

  /** What the overlap of an extent with [gs, ge) is. */
  function OverlapStart(e: Ext, gs: nat): nat {
    if e.ls > gs then e.ls else gs
  }

  function OverlapEnd(e: Ext, ge: nat): nat {
    if End(e) < ge then End(e) else ge
  }

  lemma {:induction false} Spliced(group: seq<Block>, blocks: seq<Block>, a: nat, b: nat, i: nat)
    requires a <= b <= |group| && |blocks| == b - a && i < |group|
    ensures (group[..a] + blocks + group[b..])[i] == if a <= i < b then blocks[i - a] else group[i]
  {
  }

  /** Copying the overlap of one more extent gives the view of the list with that extent. */
  lemma {:induction false} ViewExtended(list: seq<Ext>, e: Ext, content: seq<Block>, group: seq<Block>,
                                        blocks: seq<Block>, gs: nat, ge: nat, bs: nat)
    requires gs <= ge <= |content| && group == ListView(list, content, gs, ge, bs) && !(End(e) <= gs || e.ls >= ge)
    requires blocks == content[OverlapStart(e, gs)..OverlapEnd(e, ge)]
    ensures var os, oe := OverlapStart(e, gs), OverlapEnd(e, ge);
      group[..os - gs] + blocks + group[oe - gs..] == ListView(list + [e], content, gs, ge, bs)
  {
    hide Has;
    var os, oe := OverlapStart(e, gs), OverlapEnd(e, ge);
    var t := group[..os - gs] + blocks + group[oe - gs..];
    assert |t| == ge - gs;
    forall i | 0 <= i < ge - gs ensures t[i] == if Has(list + [e], gs + i) then content[gs + i] else Zeros(bs) {
      HasConcat(list, [e], gs + i);
      HasOne(e, gs + i);
      Spliced(group, blocks, os - gs, oe - gs, i);
    }
  }

  lemma {:induction false} HasOne(e: Ext, b: nat)
    ensures Has([e], b) <==> In(e, b)
  {
    if In(e, b) {
      assert In([e][0], b);
    }
  }

  lemma {:induction false} ViewSkipped(list: seq<Ext>, e: Ext, content: seq<Block>, gs: nat, ge: nat, bs: nat)
    requires gs <= ge <= |content| && (End(e) <= gs || e.ls >= ge)
    ensures ListView(list + [e], content, gs, ge, bs) == ListView(list, content, gs, ge, bs)
  {
    hide Has;
    var v, w := ListView(list + [e], content, gs, ge, bs), ListView(list, content, gs, ge, bs);
    forall i | 0 <= i < ge - gs ensures v[i] == w[i] {
      HasConcat(list, [e], gs + i);
      HasOne(e, gs + i);
    }
  }

  lemma {:induction false} EmptyView(content: seq<Block>, gs: nat, ge: nat, bs: nat)
    requires gs <= ge <= |content|
    ensures ListView([], content, gs, ge, bs) == seq(ge - gs, _ => Zeros(bs))
  {
    var v := ListView([], content, gs, ge, bs);
    forall i | 0 <= i < ge - gs ensures v[i] == Zeros(bs) {
      assert !Has([], gs + i);
    }
  }

  // ----- private copies

  /** Writing blocks that nothing references leaves all referenced blocks alone. */
  lemma {:induction false} FreshWrite(dev: Device, dev': Device, m: multiset<Lba>, start: Lba, n: nat)
    requires |dev| == |dev'| && (forall x | x in Range(start, n) :: m[x] == 0)
    requires forall x | 0 <= x < |dev'| && !(start <= x < start + n) :: dev'[x] == dev[x]
    ensures SameOn(dev, dev', m)
  {
    forall x | x in m && x < |dev| ensures dev[x] == dev'[x] {
      InRange(start, n, x);
    }
  }

  /** Blocks [first, first + n) of the content, stored uncompressed. */
  lemma {:induction false} PlainShown(dev: Device, c: Codec, e: Ext, e': Ext, content: seq<Block>, blocks: seq<Block>)
    requires e'.lc == e'.pc == |blocks| && e'.ls + |blocks| <= |content| && blocks == content[e'.ls..e'.ls + |blocks|]
    requires e'.ps + |blocks| <= |dev| && dev[e'.ps..e'.ps + |blocks|] == blocks
    ensures ExtShows(dev, c, e', content)
  {
  }
}
