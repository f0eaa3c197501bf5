/** Value-level facts about cloning a range of one extent list into another. */
module FileClone {
  import opened Blocks
  import opened Extents
  import opened Coalescing
  import opened FileLayout
  import opened FileContent
  import opened FileWrites
  import opened FileRead

  /** Source blocks [from, from + n) appear at destination blocks [to, to + n). */
  datatype Shift = Shift(from: nat, to: nat, n: nat)

  function ShiftFor(srcOffset: nat, dstOffset: nat, length: nat, bs: nat): Shift
    requires bs > 0
  {
    Shift(srcOffset / bs, dstOffset / bs, length / bs)
  }

  /** Positions within compression groups are kept. */
  predicate InStep(h: Shift) {
    h.from % GROUP == h.to % GROUP
  }

  /** The source range exists, and the destination starts within or right behind the existing blocks. */
  predicate CloneInside(h: Shift, cs: seq<Block>, cd: seq<Block>) {
    h.from + h.n <= |cs| && h.to <= |cd|
  }

  /** The range cuts no compressed extent of the destination. */
  ghost predicate CutsNone(h: Shift, list: seq<Ext>) {
    Uncut(list, h.to) && Uncut(list, h.to + h.n)
  }

  /** The destination block of a source block, clamped to the cloned range. */
  function Moved(h: Shift, x: nat): nat {
    if x <= h.from then h.to else if x >= h.from + h.n then h.to + h.n else h.to + (x - h.from)
  }

  /** The extent overlaps the cloned range. */
  predicate Overlaps(e: Ext, h: Shift) {
    !(End(e) <= h.from || e.ls >= h.from + h.n)
  }

  /** The overlapping part can be shared: the extent is uncompressed, or lies wholly in the range. */
  predicate Shareable(e: Ext, h: Shift) {
    Plain(e) || (h.from <= e.ls && End(e) <= h.from + h.n)
  }

  /** The part of extent i that the range takes has to be copied, but the extent does not unpack. */
  ghost predicate PartFails(dev: Device, c: Codec, list: seq<Ext>, h: Shift, i: nat) {
    i < |list| && Overlaps(list[i], h) && !Shareable(list[i], h) && !Unpacks(dev, c, list[i])
  }

  /** Nothing in the range needs a private copy. */
  ghost predicate AllShareable(list: seq<Ext>, h: Shift) {
    forall i | 0 <= i < |list| && Overlaps(list[i], h) :: Shareable(list[i], h)
  }

  /** The clone of the overlapping part of an extent: an uncompressed part, or a whole compressed extent. */
  ghost predicate ClonedFrom(e: Ext, h: Shift, piece: Ext) {
    && piece.ls == Moved(h, e.ls) && End(piece) == Moved(h, End(e)) && ExtOk(piece)
    && (Plain(e) ==> Plain(piece) && piece.ps == e.ps + Inside(e.ls, h.from))
    && (!Plain(e) && Shareable(e, h) ==> piece.ps == e.ps && piece.pc == e.pc)
    && (!Plain(piece) ==> piece.ps == e.ps && piece.pc == e.pc && piece.lc == e.lc)
    && (!Plain(piece) ==> piece.ls == h.to + e.ls - h.from && h.from <= e.ls)
  }

  /** The clone of the overlapping part of an extent that can be shared: the very same physical blocks. */
  function SharedPart(e: Ext, h: Shift): Ext
    requires Overlaps(e, h) && h.n > 0
  {
    var at, to := Moved(h, e.ls), Moved(h, End(e));
    if Plain(e) then Ext(at, to - at, e.ps + Inside(e.ls, h.from), to - at) else Ext(at, to - at, e.ps, e.pc)
  }

  /** The clones of a list that can be shared throughout. */
  function SharedClones(list: seq<Ext>, h: Shift): seq<Ext>
    requires h.n > 0
  {
    if list == [] then [] else
    var e := list[|list| - 1];
    SharedClones(list[..|list| - 1], h) + if Overlaps(e, h) then [SharedPart(e, h)] else []
  }

  /** A clone that shares is the shared part. */
  lemma {:induction false} SharedIsPart(e: Ext, h: Shift, piece: Ext)
    requires Overlaps(e, h) && h.n > 0 && ClonedFrom(e, h, piece) && Shareable(e, h)
    ensures piece == SharedPart(e, h)
  {
  }

  lemma {:induction false} SharedNext(list: seq<Ext>, i: nat, h: Shift)
    requires h.n > 0 && i < |list|
    ensures SharedClones(list[..i + 1], h)
      == SharedClones(list[..i], h) + if Overlaps(list[i], h) then [SharedPart(list[i], h)] else []
  {
    assert list[..i + 1][..i] == list[..i];
  }

  /** The three ways to clone a part [os, oe) of an extent. */
  lemma {:induction false} CloneForms(e: Ext, h: Shift, os: nat, oe: nat)
    requires ExtOk(e) && Overlaps(e, h) && h.n > 0
    requires os == (if e.ls > h.from then e.ls else h.from)
    requires oe == if End(e) < h.from + h.n then End(e) else h.from + h.n
    ensures e.ls <= os < oe <= End(e) && os >= h.from
    ensures var n, at := oe - os, h.to + (os - h.from);
      if Plain(e) then ClonedFrom(e, h, Ext(at, n, e.ps + (os - e.ls), n))
      else if os == e.ls && n == e.lc then ClonedFrom(e, h, e.(ls := at))
      else !Shareable(e, h) && forall ps :: ClonedFrom(e, h, Ext(at, n, ps, n))
  {
  }

  lemma {:induction false} SubRange(start: nat, skip: nat, n: nat, count: nat, m: multiset<Lba>)
    requires skip + n <= count && multiset(Range(start, count)) <= m
    ensures multiset(Range(start + skip, n)) <= m
  {
    RangeSplit(start, skip, count);
    RangeSplit(start + skip, n, count - skip);
  }

  lemma {:induction false} SameOnSub(dev: Device, dev': Device, a: multiset<Lba>, b: multiset<Lba>)
    requires SameOn(dev, dev', b) && a <= b
    ensures SameOn(dev, dev', a)
  {
    forall x | x in a && x < |dev| ensures dev[x] == dev'[x] {
      assert a[x] <= b[x];
    }
  }

  /** An extent shows the same blocks of any content that holds them at another place. */
  lemma {:induction false} MovedShows(dev: Device, c: Codec, e: Ext, e': Ext, content: seq<Block>, other: seq<Block>)
    requires ExtShows(dev, c, e, content) && e' == e.(ls := e'.ls) && End(e') <= |other|
    requires other[e'.ls..End(e')] == content[e.ls..End(e)]
    ensures ExtShows(dev, c, e', other)
  {
  }

  lemma {:induction false} PartMoved(dev: Device, c: Codec, e: Ext, skip: nat, piece: Ext, content: seq<Block>,
                                     other: seq<Block>)
    requires ExtShows(dev, c, e, content) && Plain(e) && skip + piece.lc <= e.lc
    requires piece == Ext(piece.ls, piece.lc, e.ps + skip, piece.lc) && End(piece) <= |other| && End(e) <= |content|
    requires other[piece.ls..End(piece)] == content[e.ls + skip..e.ls + skip + piece.lc]
    ensures ExtShows(dev, c, piece, other)
  {
    PartShows(dev, c, e, content, skip, piece.lc);
    MovedShows(dev, c, Ext(e.ls + skip, piece.lc, e.ps + skip, piece.lc), piece, content, other);
  }

  // ----- the loop over the source extents

  /** Before source extent i: the clones so far are in order and end before what extent i will give. */
  ghost predicate Cloning(list: seq<Ext>, i: nat, clones: seq<Ext>, h: Shift) {
    && i <= |list| && AllOk(clones) && Sorted(clones)
    && (forall k | 0 <= k < |clones| :: h.to <= clones[k].ls && End(clones[k]) <= h.to + h.n)
    && (i < |list| ==> Within(clones, Moved(h, list[i].ls)))
  }

  /** The clones so far cover what the source extents so far do of the range. */
  ghost predicate CloningCovers(list: seq<Ext>, i: nat, pos: nat, clones: seq<Ext>, h: Shift) {
    i <= |list| && Covers(list[..i], 0, pos) && Covers(clones, h.to, Moved(h, pos))
  }

  /** Cloned compressed extents stay whole groups when the clone keeps positions within groups. */
  ghost predicate CloneAligned(list: seq<Ext>, clones: seq<Ext>, h: Shift) {
    Aligned(list) && InStep(h) ==> Aligned(clones)
  }

  lemma {:induction false} CloneSkip(list: seq<Ext>, i: nat, clones: seq<Ext>, h: Shift)
    requires i < |list| && AllOk(list) && Sorted(list) && Cloning(list, i, clones, h) && !Overlaps(list[i], h)
    ensures Cloning(list, i + 1, clones, h)
  {
    assert ExtOk(list[i]);
    assert i + 1 < |list| ==> End(list[i]) <= list[i + 1].ls;
  }

  lemma {:induction false} CloneStep(list: seq<Ext>, i: nat, clones: seq<Ext>, h: Shift, piece: Ext)
    requires i < |list| && AllOk(list) && Sorted(list) && Cloning(list, i, clones, h) && Overlaps(list[i], h)
    requires ClonedFrom(list[i], h, piece)
    requires CloneAligned(list, clones, h)
    ensures Cloning(list, i + 1, clones + [piece], h) && CloneAligned(list, clones + [piece], h)
  {
    assert ExtOk(list[i]);
    ConcatSorted(clones, [piece]);
    assert i + 1 < |list| ==> End(list[i]) <= list[i + 1].ls;
    if Aligned(list) && InStep(h) {
      assert Plain(list[i]) || list[i].ls % GROUP == 0;
      assert Aligned([piece]);
      AlignedConcat(clones, [piece]);
    }
  }

  lemma {:induction false} CloneCoversSkip(list: seq<Ext>, i: nat, pos: nat, cov: nat, clones: seq<Ext>, h: Shift)
    requires i < |list| && Covers(list, 0, cov) && CloningCovers(list, i, pos, clones, h) && !Overlaps(list[i], h)
    ensures CloningCovers(list, i + 1, End(list[i]), clones, h)
  {
    hide Covers;
    NextExtent(list, cov, i, pos);
  }

  lemma {:induction false} CloneCoversStep(list: seq<Ext>, i: nat, pos: nat, cov: nat, clones: seq<Ext>, h: Shift,
                                           piece: Ext)
    requires i < |list| && Covers(list, 0, cov) && CloningCovers(list, i, pos, clones, h)
    requires ClonedFrom(list[i], h, piece)
    ensures CloningCovers(list, i + 1, End(list[i]), clones + [piece], h)
  {
    NextExtent(list, cov, i, pos);
    assert Covers([piece], piece.ls, End(piece)) by { assert [piece][1..] == []; }
    CoversConcat(clones, [piece], h.to, piece.ls, End(piece));
  }

  lemma {:induction false} CloneShows(dev: Device, dev': Device, c: Codec, list: seq<Ext>, clones: seq<Ext>, piece: Ext,
                                      cs: seq<Block>, y: seq<Block>)
    requires Shows(dev, c, list, cs) && Shows(dev, c, clones, y) && ExtShows(dev', c, piece, y)
    requires SameOn(dev, dev', Owned(list)) && SameOn(dev, dev', Owned(clones))
    ensures Shows(dev', c, list, cs) && Shows(dev', c, clones + [piece], y)
  {
    hide SameOn, Owned, ExtShows;
    ShowsFrame(dev, dev', c, list, cs);
    ShowsFrame(dev, dev', c, clones, y);
    ShowsConcat(dev', c, clones, [piece], y);
  }

  /** The part of the target content that an extent's clone must show. */
  lemma {:induction false} CloneTarget(e: Ext, h: Shift, cs: seq<Block>, y: seq<Block>)
    requires Overlaps(e, h) && e.lc > 0 && End(e) <= |cs| && h.from + h.n <= |cs| && h.to + h.n <= |y|
    requires y[h.to..h.to + h.n] == cs[h.from..h.from + h.n]
    ensures var os := if e.ls > h.from then e.ls else h.from;
      var oe := if End(e) < h.from + h.n then End(e) else h.from + h.n;
      && Moved(h, e.ls) == h.to + (os - h.from) && Moved(h, End(e)) == h.to + (oe - h.from)
      && y[Moved(h, e.ls)..Moved(h, End(e))] == cs[os..oe]
  {
    var os, oe := if e.ls > h.from then e.ls else h.from, if End(e) < h.from + h.n then End(e) else h.from + h.n;
    SliceOfSlice(y, h.to, h.to + h.n, os - h.from, oe - h.from);
    SliceOfSlice(cs, h.from, h.from + h.n, os - h.from, oe - h.from);
  }

  // ----- the new destination list

  /** The destination's blocks with the range replaced by the source's. */
  function ClonedContent(cd: seq<Block>, cs: seq<Block>, h: Shift): seq<Block>
    requires h.from + h.n <= |cs| && h.to <= |cd|
  {
    cd[..h.to] + cs[h.from..h.from + h.n] + (if h.to + h.n < |cd| then cd[h.to + h.n..] else [])
  }

  function NewList(list: seq<Ext>, clones: seq<Ext>, h: Shift): seq<Ext> {
    KeepLeft(list, h.to) + clones + KeepRight(list, h.to + h.n)
  }

  lemma {:induction false} NewListOk(list: seq<Ext>, clones: seq<Ext>, h: Shift, n: nat, src: seq<Ext>)
    requires AllOk(list) && Sorted(list) && Within(list, n) && h.to + h.n <= n && h.n > 0
    requires Cloning(src, |src|, clones, h)
    ensures var next := NewList(list, clones, h); AllOk(next) && Sorted(next) && Within(next, n)
    ensures Owned(NewList(list, clones, h)) == Owned(CutAll(list, h.to, h.to + h.n)) + Owned(clones)
  {
    hide KeepLeft, KeepRight, Owned, CutAll;
    var l, r := KeepLeft(list, h.to), KeepRight(list, h.to + h.n);
    KeepLeftSorted(list, h.to);
    KeepRightSorted(list, h.to + h.n, n);
    ConcatSorted(l, clones);
    ConcatSorted(l + clones, r);
    CutIsKeep(list, h.to, h.to + h.n);
    OwnedConcat(l, r);
    OwnedConcat(l, clones);
    OwnedConcat(l + clones, r);
  }

  function BlockOr(x: seq<Block>, b: nat, bs: nat): Block {
    if b < |x| then x[b] else Zeros(bs)
  }

  /** The same wherever the range lies: blocks that do not exist count as zero. */
  function Pasted(cd: seq<Block>, cs: seq<Block>, h: Shift, bs: nat): seq<Block> {
    seq(if h.to + h.n < |cd| then |cd| else h.to + h.n, b requires 0 <= b =>
      if h.to <= b < h.to + h.n then BlockOr(cs, h.from + (b - h.to), bs) else BlockOr(cd, b, bs))
  }

  lemma {:induction false} PastedAt(cd: seq<Block>, cs: seq<Block>, h: Shift, bs: nat, b: nat)
    requires b < |Pasted(cd, cs, h, bs)|
    ensures Pasted(cd, cs, h, bs)[b]
      == if h.to <= b < h.to + h.n then BlockOr(cs, h.from + (b - h.to), bs) else BlockOr(cd, b, bs)
  {
  }

  lemma {:induction false} PastedInside(cd: seq<Block>, cs: seq<Block>, h: Shift, bs: nat)
    requires CloneInside(h, cs, cd)
    ensures Pasted(cd, cs, h, bs) == ClonedContent(cd, cs, h)
  {
    var y, z := Pasted(cd, cs, h, bs), ClonedContent(cd, cs, h);
    assert |y| == |z|;
    forall b | 0 <= b < |y| ensures y[b] == z[b] {
      PastedAt(cd, cs, h, bs, b);
      if h.to <= b < h.to + h.n {
        assert z[b] == cs[h.from..h.from + h.n][b - h.to];
      } else if b >= h.to + h.n {
        assert z[b] == cd[h.to + h.n..][b - (h.to + h.n)];
      }
    }
  }

  /** The cloned range holds the source's blocks. */
  lemma {:induction false} PastedMiddle(cd: seq<Block>, cs: seq<Block>, h: Shift, bs: nat, x: seq<Block>)
    requires x == Extended(cs, if h.from + h.n < |cs| then |cs| else h.from + h.n, bs)
    ensures h.to + h.n <= |Pasted(cd, cs, h, bs)| && h.from + h.n <= |x|
    ensures Pasted(cd, cs, h, bs)[h.to..h.to + h.n] == x[h.from..h.from + h.n]
  {
    var y := Pasted(cd, cs, h, bs);
    var p, q := y[h.to..h.to + h.n], x[h.from..h.from + h.n];
    forall i | 0 <= i < h.n ensures p[i] == q[i] {
      PastedAt(cd, cs, h, bs, h.to + i);
      assert x[h.from + i] == BlockOr(cs, h.from + i, bs);
    }
  }

  /** The new list shows the new content, whatever the range cuts. */
  lemma {:induction false} NewListShows(dev: Device, dev': Device, c: Codec, list: seq<Ext>, clones: seq<Ext>, h: Shift,
                                        cd: seq<Block>, cs: seq<Block>, bs: nat)
    requires AllOk(list) && Sorted(list) && Within(list, |cd|)
    requires Shows(dev, c, list, cd) && SameOn(dev, dev', Owned(list))
    requires Shows(dev', c, clones, Pasted(cd, cs, h, bs))
    ensures Shows(dev', c, NewList(list, clones, h), Pasted(cd, cs, h, bs))
  {
    hide KeepLeft, KeepRight, Owned, ExtShows, SameOn, Pasted;
    var l, r, y := KeepLeft(list, h.to), KeepRight(list, h.to + h.n), Pasted(cd, cs, h, bs);
    ShowsFrame(dev, dev', c, list, cd);
    KeepLeftShows(dev', c, list, cd, h.to);
    KeepRightShows(dev', c, list, cd, h.to + h.n);
    KeepLeftSorted(list, h.to);
    KeepRightSorted(list, h.to + h.n, |cd|);
    OutsideShows(dev', c, l, r, cd, cs, h, bs);
    ShowsConcat(dev', c, l, clones, y);
    ShowsConcat(dev', c, l + clones, r, y);
  }

  /** Extents outside the replaced range do not notice the clone. */
  lemma {:induction false} OutsideShows(dev: Device, c: Codec, l: seq<Ext>, r: seq<Ext>, cd: seq<Block>, cs: seq<Block>,
                                        h: Shift, bs: nat)
    requires Shows(dev, c, l, cd) && Within(l, h.to) && Shows(dev, c, r, cd) && Within(r, |cd|)
    requires forall i | 0 <= i < |r| :: h.to + h.n <= r[i].ls
    ensures var y := Pasted(cd, cs, h, bs); Shows(dev, c, l, y) && Shows(dev, c, r, y)
  {
    hide ExtShows, Pasted;
    var y := Pasted(cd, cs, h, bs);
    forall i | 0 <= i < |l| ensures End(l[i]) <= |cd| {
      assert ExtShows(dev, c, l[i], cd);
      ShownInside(dev, c, l[i], cd);
    }
    forall i | 0 <= i < |l| ensures End(l[i]) <= |y| && y[l[i].ls..End(l[i])] == cd[l[i].ls..End(l[i])] {
      OutsideSame(cd, cs, h, bs, l[i].ls, End(l[i]));
    }
    ShowsPrefix(dev, c, l, cd, y);
    forall i | 0 <= i < |r| ensures End(r[i]) <= |y| && y[r[i].ls..End(r[i])] == cd[r[i].ls..End(r[i])] {
      OutsideSame(cd, cs, h, bs, r[i].ls, End(r[i]));
    }
    ShowsPrefix(dev, c, r, cd, y);
  }

  lemma {:induction false} ShownInside(dev: Device, c: Codec, e: Ext, cd: seq<Block>)
    requires ExtShows(dev, c, e, cd)
    ensures End(e) <= |cd|
  {
  }

  lemma {:induction false} OutsideSame(cd: seq<Block>, cs: seq<Block>, h: Shift, bs: nat, a: nat, b: nat)
    requires a <= b <= |cd| && (b <= h.to || h.to + h.n <= a)
    ensures var y := Pasted(cd, cs, h, bs); b <= |y| && y[a..b] == cd[a..b]
  {
    var y := Pasted(cd, cs, h, bs);
    forall i | a <= i < b ensures y[i] == cd[i] {
      PastedAt(cd, cs, h, bs, i);
    }
  }

  lemma {:induction false} NewListAligned(list: seq<Ext>, clones: seq<Ext>, h: Shift)
    requires Aligned(list) && Aligned(clones)
    ensures Aligned(NewList(list, clones, h))
  {
    KeepAligned(list, h.to);
    KeepAligned(list, h.to + h.n);
    AlignedConcat(KeepLeft(list, h.to), clones);
    AlignedConcat(KeepLeft(list, h.to) + clones, KeepRight(list, h.to + h.n));
  }

  lemma {:induction false} KeepStep(list: seq<Ext>, i: nat, x: nat)
    requires i < |list|
    ensures KeepLeft(list[..i + 1], x) == KeepLeft(list[..i], x) + TrimLeft(list[i], x)
    ensures KeepRight(list[..i + 1], x) == KeepRight(list[..i], x) + TrimRight(list[i], x)
  {
    assert list[..i + 1] == list[..i] + [list[i]];
    KeepConcat(list[..i], [list[i]], x);
    assert [list[i]][1..] == [];
  }

  /** The cloned content has the new number of blocks. */
  lemma {:induction false} ClonedSize(cd: seq<Block>, cs: seq<Block>, h: Shift, bs: nat, size: nat)
    requires bs > 0 && h.from + h.n <= |cs| && h.to <= |cd| == CeilDiv(size, bs) && AllSized(cd, bs) && AllSized(cs, bs)
    ensures var y, end := ClonedContent(cd, cs, h), (h.to + h.n) * bs;
      |y| == CeilDiv(if end > size then end else size, bs) && AllSized(y, bs)
  {
    var end := (h.to + h.n) * bs;
    CeilOfMultiple(h.to + h.n, bs);
    if end > size {
      CeilDivMonotone(size, end, bs);
    } else {
      CeilDivMonotone(end, size, bs);
    }
  }

  lemma {:induction false} CeilOfMultiple(k: nat, bs: nat)
    requires bs > 0
    ensures CeilDiv(k * bs, bs) == k
  {
    DivModUnique(k * bs + bs - 1, bs, k, bs - 1);
  }
}
