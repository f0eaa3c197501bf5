/** The data-block layer of a mounted volume: reading, writing, truncating, cloning and freeing files
    over shared physical blocks. */
module Volumes {
  import opened Blocks
  import opened Extents
  import opened Coalescing
  import opened FileLayout
  import opened FileContent
  import opened Refcounts
  import opened FileWrites
  import opened FileAppends
  import opened GroupRewrites
  import opened WriteSafety
  import opened Cuts
  import opened FileTruncate
  import opened FileClone
  import opened FileRead

  datatype Status = Ok | Inval | NoSpace | Io

  ghost predicate FileOk(f: File, bs: nat)
    requires bs > 0
  {
    LayoutOk(f) && AllOk(Collect(f)) && Sorted(Collect(f)) && Within(Collect(f), CeilDiv(f.size, bs))
  }

  /** Only one file's record changed. */
  ghost predicate OnlyFile(files0: seq<File>, files: seq<File>, ino: nat) {
    ino < |files0| == |files| && files == files0[ino := files[ino]]
  }

  /** Storing a list in one file keeps all files in order and the references balanced. */
  lemma {:induction false} StoredFile(files0: seq<File>, files: seq<File>, ino: nat, list: seq<Ext>, bs: nat)
    requires bs > 0 && OnlyFile(files0, files, ino) && forall i | 0 <= i < |files0| :: FileOk(files0[i], bs)
    requires AllOk(list) && Sorted(list) && Within(list, CeilDiv(files[ino].size, bs))
    requires Stores(files[ino], Coalesce(list))
    ensures forall i | 0 <= i < |files| :: FileOk(files[i], bs)
    ensures Total(files) == Others(files0, ino) + Owned(list)
  {
    StoredList(files[ino], list, CeilDiv(files[ino].size, bs));
    TotalAround(files, ino);
    OthersKept(files0, ino, files[ino]);
  }

  /** The layout of one file was extended in place. */
  lemma {:induction false} AppendedTotals(files0: seq<File>, files: seq<File>, ino: nat, bs: nat)
    requires bs > 0 && OnlyFile(files0, files, ino) && FileOk(files[ino], bs) && forall i | 0 <= i < |files0| ::
      FileOk(files0[i], bs)
    ensures forall i | 0 <= i < |files| :: FileOk(files[i], bs)
    ensures Total(files) == Others(files0, ino) + Owned(Collect(files[ino]))
  {
    TotalAround(files, ino);
    OthersKept(files0, ino, files[ino]);
  }

  lemma {:induction false} FileOwned(f: File, m: multiset<Lba>)
    ensures m + Owned(Collect(f)) == (m + Owned(f.over)) + SlotsOwned(f.slots[0..])
  {
    InlineOwned(f.slots, 0);
    OwnedConcat(InlineExts(f.slots, 0), f.over);
    assert f.slots[0..] == f.slots;
    hide Owned, SlotsOwned;
    assert m + (SlotsOwned(f.slots) + Owned(f.over)) == (m + Owned(f.over)) + SlotsOwned(f.slots);
  }

  lemma {:induction false} SlotReleased(m: multiset<Lba>, slots: seq<Run>, i: nat)
    requires i < |slots|
    ensures m + SlotsOwned(slots[i..])
      == (m + SlotsOwned(slots[i + 1..])) + multiset(Range(slots[i].start, slots[i].blocks))
  {
    SlotsFrom(slots, i);
    hide SlotsOwned, Range;
  }

  lemma {:induction false} NoSlots(slots: seq<Run>, i: nat, m: multiset<Lba>)
    requires i == |slots|
    ensures m + SlotsOwned(slots[i..]) == m
  {
    assert slots[i..] == [];
  }

  lemma {:induction false} OwnedFrom(list: seq<Ext>, i: nat, m: multiset<Lba>)
    requires i < |list|
    ensures m + Owned(list[i..]) == (m + Owned(list[i + 1..])) + multiset(Range(list[i].ps, list[i].pc))
  {
    assert list[i..][1..] == list[i + 1..];
    assert Owned(list[i..]) == multiset(Range(list[i].ps, list[i].pc)) + Owned(list[i + 1..]);
    hide Owned, Range;
  }

  lemma {:induction false} OwnedNone(list: seq<Ext>, m: multiset<Lba>)
    requires list == []
    ensures m + Owned(list) == m
  {
  }

  /** A file without extents. */
  lemma {:induction false} EmptyFile(files0: seq<File>, files: seq<File>, ino: nat, bs: nat)
    requires bs > 0 && OnlyFile(files0, files, ino) && LayoutOk(files[ino]) && Collect(files[ino]) == []
    requires forall i | 0 <= i < |files0| :: FileOk(files0[i], bs)
    ensures forall i | 0 <= i < |files| :: FileOk(files[i], bs)
    ensures Total(files) == Others(files0, ino)
  {
    hide Collect, LayoutOk;
    assert FileOk(files[ino], bs);
    AppendedTotals(files0, files, ino, bs);
    OwnedNone(Collect(files[ino]), Others(files0, ino));
  }

  lemma {:induction false} WithinMore(list: seq<Ext>, a: nat, b: nat)
    requires Within(list, a) && a <= b
    ensures Within(list, b)
  {
  }

  lemma {:induction false} SameTotal(files: seq<File>, ino: nat, f: File)
    requires ino < |files| && Collect(f) == Collect(files[ino])
    ensures Total(files[ino := f]) == Total(files)
  {
    TotalAround(files, ino);
    TotalAround(files[ino := f], ino);
    OthersKept(files, ino, f);
  }

  lemma {:induction false} ShrunkInOrder(files0: seq<File>, files: seq<File>, ino: nat, bs: nat)
    requires bs > 0 && OnlyFile(files0, files, ino) && forall i | 0 <= i < |files0| ::
      FileOk(files0[i], bs) && LooseFile(files0[i])
    requires files[ino] == files0[ino].(size := files[ino].size)
    ensures forall i | 0 <= i < |files| :: LooseFile(files[i])
    ensures (forall i | 0 <= i < |files| :: FileOk(files[i], bs))
      <==> Within(Collect(files[ino]), CeilDiv(files[ino].size, bs))
  {
    hide Collect, LayoutOk, AllOk, Sorted, Within, KeysAscend, CeilDiv;
    assert FileOk(files0[ino], bs) && LooseFile(files0[ino]);
    SizeOnly(files0[ino], files[ino].size);
    if forall i | 0 <= i < |files| :: FileOk(files[i], bs) {
      assert FileOk(files[ino], bs);
    }
  }

  lemma {:induction false} CoveredWithin(list: seq<Ext>, n: nat)
    requires Covers(list, 0, n)
    ensures Within(list, n)
  {
    CoversBounds(list, 0, n);
  }

  /** A file that covers the first n blocks of a content holds them. */
  lemma {:induction false} ShrunkHolds(dev: Device, c: Codec, bs: nat, f: File, n: nat, content: seq<Block>)
    requires bs > 0 && n == CeilDiv(f.size, bs) <= |content| && AllSized(content, bs) && LayoutOk(f)
    requires AllOk(Collect(f))
    requires Covers(Collect(f), 0, n) && Shows(dev, c, Collect(f), content[..n])
    ensures Holds(dev, c, bs, f, content[..n]) && FileOk(f, bs)
  {
    CoversBounds(Collect(f), 0, n);
  }

  lemma {:induction false} ShrunkBlocks(newsize: nat, size: nat, bs: nat)
    requires bs > 0 && newsize <= size
    ensures CeilDiv(newsize, bs) <= CeilDiv(size, bs) && CeilDiv(0, bs) == 0
  {
    CeilDivMonotone(newsize, size, bs);
  }

  lemma {:induction false} ShownEnd(dev: Device, c: Codec, e: Ext, content: seq<Block>)
    requires ExtShows(dev, c, e, content)
    ensures End(e) <= |content|
  {
  }

  lemma {:induction false} CloneStart(list: seq<Ext>, h: Shift, m: multiset<Lba>)
    ensures Cloning(list, 0, [], h) && CloneAligned(list, [], h) && m + Owned([]) == m
    ensures CloningCovers(list, 0, 0, [], h)
  {
    assert list[..0] == [];
  }

  lemma {:induction false} MemberOf(list: seq<Ext>, i: nat, m: multiset<Lba>, more: multiset<Lba>, dev: Device,
                                    c: Codec, cs: seq<Block>)
    requires i < |list| && AllOk(list) && Owned(list) <= m
    ensures ExtOk(list[i]) && multiset(Range(list[i].ps, list[i].pc)) <= m + more
    ensures Shows(dev, c, list, cs) ==> ExtShows(dev, c, list[i], cs)
  {
    OwnedMember(list, i);
  }

  lemma {:induction false} StillFails(dev: Device, dev': Device, c: Codec, list: seq<Ext>, h: Shift, i: nat,
                                      m: multiset<Lba>)
    requires i < |list| && AllOk(list) && Owned(list) <= m && SameOn(dev, dev', m) && Overlaps(list[i], h)
    ensures PartFails(dev, c, list, h, i) <==> !Shareable(list[i], h) && !Unpacks(dev', c, list[i])
  {
    hide SameOn, Unpacks, Owned, Range;
    OwnedMember(list, i);
    SameOnSub(dev, dev', multiset(Range(list[i].ps, list[i].pc)), m);
    UnpacksFrame(dev, dev', c, list[i]);
  }

  lemma {:induction false} AppendOwned(m: multiset<Lba>, clones: seq<Ext>, piece: Ext)
    ensures (m + Owned(clones)) + multiset(Range(piece.ps, piece.pc)) == m + Owned(clones + [piece])
  {
    OwnedConcat(clones, [piece]);
    OwnedOne(piece);
    hide Owned, Range;
  }

  lemma {:induction false} CloneEnd(list: seq<Ext>, pos: nat, cov: nat, clones: seq<Ext>, h: Shift)
    requires Covers(list, 0, cov) && h.from + h.n <= cov && CloningCovers(list, |list|, pos, clones, h)
    ensures Covers(clones, h.to, h.to + h.n)
  {
    assert list[..|list|] == list;
    CoversEnd(list, 0, pos, cov);
  }

  /** The stored clone is gapless, and then holds the new content, exactly when the range cuts no compressed
      extent of the destination. */
  lemma {:induction false} StoredClone(dev: Device, c: Codec, bs: nat, f: File, list: seq<Ext>, clones: seq<Ext>,
                                       h: Shift,
                                       cov: nat, y: seq<Block>)
    requires bs > 0 && h.n > 0 && h.to <= cov && Covers(list, 0, cov) && Covers(clones, h.to, h.to + h.n)
    requires var next := NewList(list, clones, h);
      AllOk(next) && Sorted(next) && Within(next, |y|) && Stores(f, Coalesce(next))
    requires |y| == CeilDiv(f.size, bs) && AllSized(y, bs) && Shows(dev, c, NewList(list, clones, h), y)
    requires |y| == if cov > h.to + h.n then cov else h.to + h.n
    ensures Gapless(f, bs) <==> CutsNone(h, list)
    ensures Holds(dev, c, bs, f, y) <==> CutsNone(h, list)
    ensures CutsNone(h, list) && Aligned(NewList(list, clones, h)) ==> Aligned(Collect(f))
  {
    hide Covers, Shows, Collect, Stores, Coalesce, KeepLeft, KeepRight, Uncut, Aligned, AllSized, CeilDiv;
    var next := NewList(list, clones, h);
    RebuiltCovers(list, clones, h.to, h.to + h.n, cov, |y|);
    StoredCovers(f, next, |y|);
    if CutsNone(h, list) {
      StoredHolds(dev, c, bs, f, next, y);
    }
  }

  /** Both files hold their content, and the cloned range lies within them. */
  ghost predicate Cloneable(dev: Device, c: Codec, bs: nat, src: File, dst: File, h: Shift, cs: seq<Block>,
                            cd: Option<seq<Block>>)
    requires bs > 0
  {
    cd.Some? && Holds(dev, c, bs, src, cs) && Holds(dev, c, bs, dst, cd.value) && CloneInside(h, cs, cd.value)
  }

  /** A file shows its content extended with zeros, too. */
  lemma {:induction false} PresentsMore(dev: Device, c: Codec, bs: nat, f: File, content: seq<Block>, n: nat)
    requires bs > 0 && Presents(dev, c, bs, f, content) && |content| <= n
    ensures AllSized(Extended(content, n, bs), bs) && Shows(dev, c, Collect(f), Extended(content, n, bs))
  {
    hide Shows, Collect, Extended;
    ExtendedProps(content, n, bs);
    ShowsExtended(dev, c, Collect(f), content, n, bs);
  }

  /** What a clone makes of any file: its extents around the range and the clones in it show the new content. */
  ghost predicate ClonedInto(dev: Device, c: Codec, bs: nat, f: File, f': File, h: Shift, cd: seq<Block>,
                             cs: seq<Block>, clones: seq<Ext>) {
    && Stores(f', Coalesce(NewList(Collect(f), clones, h)))
    && Shows(dev, c, NewList(Collect(f), clones, h), Pasted(cd, cs, h, bs))
  }

  lemma {:induction false} CloneShown(dev0: Device, dev: Device, c: Codec, bs: nat, f: File, f': File, clones: seq<Ext>,
                                      h: Shift, cd: seq<Block>, cs: seq<Block>)
    requires bs > 0 && FileOk(f, bs) && Presents(dev0, c, bs, f, cd) && SameOn(dev0, dev, Owned(Collect(f)))
    requires Shows(dev, c, clones, Pasted(cd, cs, h, bs)) && Stores(f', Coalesce(NewList(Collect(f), clones, h)))
    ensures ClonedInto(dev, c, bs, f, f', h, cd, cs, clones)
  {
    hide Shows, Collect, Stores, Coalesce, NewList, AllSized, SameOn, Owned, Pasted, ZeroOutside, LayoutOk, CeilDiv;
    NewListShows(dev0, dev, c, Collect(f), clones, h, cd, cs, bs);
  }

  /** What a clone makes of a file that held its content. */
  lemma {:induction false} CloneResult(dev: Device, c: Codec, bs: nat, f: File, f': File, src: seq<Ext>,
                                       clones: seq<Ext>, h: Shift, cd: seq<Block>, cs: seq<Block>)
    requires bs > 0 && h.n > 0 && CloneInside(h, cs, cd) && AllSized(cd, bs) && AllSized(cs, bs)
    requires AllOk(Collect(f)) && |cd| == CeilDiv(f.size, bs) && Covers(Collect(f), 0, |cd|)
    requires f'.size == if (h.to + h.n) * bs > f.size then (h.to + h.n) * bs else f.size
    requires Covers(clones, h.to, h.to + h.n) && CloneAligned(src, clones, h)
    requires ClonedInto(dev, c, bs, f, f', h, cd, cs, clones)
    requires var next := NewList(Collect(f), clones, h);
      AllOk(next) && Sorted(next) && Within(next, CeilDiv(f'.size, bs))
    ensures Gapless(f', bs) <==> CutsNone(h, Collect(f))
    ensures Holds(dev, c, bs, f', ClonedContent(cd, cs, h)) <==> CutsNone(h, Collect(f))
    ensures CutsNone(h, Collect(f)) && InStep(h) && Aligned(src) && Aligned(Collect(f)) ==> Aligned(Collect(f'))
  {
    hide Covers, Shows, Collect, Stores, Coalesce, NewList, CutsNone, Gapless, Aligned, AllSized, CeilDiv, Pasted;
    PastedInside(cd, cs, h, bs);
    ClonedSize(cd, cs, h, bs, f.size);
    CloneStaysAligned(src, Collect(f), clones, h);
    StoredClone(dev, c, bs, f', Collect(f), clones, h, |cd|, ClonedContent(cd, cs, h));
  }

  lemma {:induction false} StoresSize(f: File, size: nat, list: seq<Ext>)
    requires Stores(f, list)
    ensures Stores(f.(size := size), list)
  {
  }

  /** The destination's extents after a clone that shares everything: the source's very blocks in the range, its own
      around it. */
  ghost predicate SharedInto(src: File, dst: File, dst': File, h: Shift) {
    h.n > 0 && Stores(dst', Coalesce(NewList(Collect(dst), SharedClones(Collect(src), h), h)))
  }

  lemma {:induction false} SharedStored(src: File, dst: File, dst': File, h: Shift, next: seq<Ext>)
    requires h.n > 0 && next == NewList(Collect(dst), SharedClones(Collect(src), h), h) && Stores(dst', Coalesce(next))
    ensures SharedInto(src, dst, dst', h)
  {
  }

  lemma {:induction false} SharedNone(list: seq<Ext>, h: Shift)
    requires h.n > 0
    ensures SharedClones(list[..0], h) == []
  {
  }

  lemma {:induction false} KeepNone(h: Shift)
    ensures KeepLeft([], h.to) == [] && KeepRight([], h.to + h.n) == []
  {
  }

  lemma {:induction false} ShiftOf(srcOffset: nat, dstOffset: nat, length: nat, bs: nat)
    requires bs > 0 && srcOffset % bs == 0 && dstOffset % bs == 0 && length % bs == 0 && length > 0
    ensures var h := ShiftFor(srcOffset, dstOffset, length, bs); h.n > 0 && (h.to + h.n) * bs == dstOffset + length
  {
    var b, n := dstOffset / bs, length / bs;
    assert dstOffset == b * bs && length == n * bs;
    assert (b + n) * bs == b * bs + n * bs;
  }

  lemma {:induction false} TotalOwns(files: seq<File>, i: nat)
    requires i < |files|
    ensures Owned(Collect(files[i])) <= Total(files)
  {
    TotalAround(files, i);
  }

  lemma {:induction false} Rearrange(m: multiset<Lba>, d: multiset<Lba>, c: multiset<Lba>)
    ensures (m + d) + c == (m + c) + d
  {
  }

  lemma {:induction false} Rearranged(m: multiset<Lba>, c: multiset<Lba>, k: multiset<Lba>, next: multiset<Lba>)
    requires next == k + c
    ensures (m + c) + k == m + next
  {
  }

  lemma {:induction false} GrownWithin(list: seq<Ext>, size: nat, newEnd: nat, end: nat, bs: nat)
    requires bs > 0 && Within(list, CeilDiv(size, bs)) && newEnd == end * bs
    ensures var n := CeilDiv(if newEnd > size then newEnd else size, bs); Within(list, n) && end <= n
  {
    var top := if newEnd > size then newEnd else size;
    CeilOfMultiple(end, bs);
    CeilDivMonotone(size, top, bs);
    CeilDivMonotone(newEnd, top, bs);
  }

  lemma {:induction false} CloneStaysAligned(src: seq<Ext>, dst: seq<Ext>, clones: seq<Ext>, h: Shift)
    requires CloneAligned(src, clones, h)
    ensures InStep(h) && Aligned(src) && Aligned(dst) ==> Aligned(NewList(dst, clones, h))
  {
    if InStep(h) && Aligned(src) && Aligned(dst) {
      NewListAligned(dst, clones, h);
    }
  }

  // ----- writes into gapless files

  /** The extents cover the file without gaps. */
  predicate Gapless(f: File, bs: nat)
    requires bs > 0
  {
    Covers(Collect(f), 0, CeilDiv(f.size, bs))
  }

  /** The write leaves no gap: it appends, or cuts no compressed extent at the ends of the touched groups. */
  ghost predicate KeepsGapless(f: File, bs: nat, offset: nat, len: nat)
    requires bs > 0 && len > 0
  {
    PureAppend(f.size, offset, bs) || CutsNothing(Collect(f), TouchedBy(bs, offset, len, f.size))
  }

  lemma {:induction false} FileParts(f: File, bs: nat)
    requires bs > 0 && FileOk(f, bs)
    ensures AllOk(Collect(f)) && Sorted(Collect(f))
  {
  }

  lemma {:induction false} HeldParts(dev: Device, c: Codec, bs: nat, f: File, content: seq<Block>)
    requires bs > 0 && Holds(dev, c, bs, f, content)
    ensures AllSized(content, bs) && |content| == CeilDiv(f.size, bs) && Covers(Collect(f), 0, |content|)
    ensures Shows(dev, c, Collect(f), content)
  {
  }

  /** The file's extents show the given blocks, which are zero where there are none. */
  /** File f truncated to n blocks: what is kept of its list, and the content it shows, if the cut reads the right
      blocks. Storing the list packs what lies in the inline slots. */
  ghost predicate TruncatedInto(dev: Device, c: Codec, f: File, f': File, n: nat, content: Option<seq<Block>>) {
    exists kept :: TruncatedBy(dev, c, f, f', n, content, kept)
  }

  ghost predicate TruncatedBy(dev: Device, c: Codec, f: File, f': File, n: nat, content: Option<seq<Block>>,
                              kept: seq<Ext>) {
    && KeptTo(Collect(f), n, kept)
    && Collect(f') == (if LogicalSum(Collect(f)) <= n then kept else PackedList(Coalesce(kept)))
    && (content.Some? && CutClear(Collect(f), n) ==> Shows(dev, c, kept, content.value))
  }

  /** Nothing lies behind the cut. */
  lemma {:induction false} NothingCut(dev: Device, c: Codec, f: File, n: nat, content: Option<seq<Block>>)
    requires LogicalSum(Collect(f)) <= n && (content.Some? ==> Shows(dev, c, Collect(f), content.value))
    ensures TruncatedInto(dev, c, f, f, n, content)
    ensures !exists i: nat :: CutFails(dev, c, Collect(f), n, i)
  {
    hide Shows, Collect, CutAt, KeptTo;
    CutNothing(Collect(f), n);
    assert TruncatedBy(dev, c, f, f, n, content, Collect(f));
  }

  lemma {:induction false} StillTruncated(dev: Device, c: Codec, f: File, f': File, size: nat, n: nat,
                                          content: Option<seq<Block>>)
    requires TruncatedInto(dev, c, f, f', n, content)
    ensures TruncatedInto(dev, c, f, f'.(size := size), n, content)
  {
    hide Shows, KeptTo;
    var kept :| TruncatedBy(dev, c, f, f', n, content, kept);
    assert Collect(f'.(size := size)) == Collect(f');
    assert TruncatedBy(dev, c, f, f'.(size := size), n, content, kept);
  }

  ghost predicate Presents(dev: Device, c: Codec, bs: nat, f: File, content: seq<Block>)
    requires bs > 0
  {
    && |content| == CeilDiv(f.size, bs) && AllSized(content, bs)
    && Shows(dev, c, Collect(f), content) && ZeroOutside(Collect(f), content, bs)
  }

  lemma {:induction false} HoldsPresents(dev: Device, c: Codec, bs: nat, f: File, content: seq<Block>)
    requires bs > 0 && Holds(dev, c, bs, f, content)
    ensures Presents(dev, c, bs, f, content)
  {
    hide Collect, Covers, Shows, AllSized;
    CoveredOutside(Collect(f), content, |content|, bs);
  }

  /** The content is that of a gapless file, and the write leaves no hole. */
  ghost predicate Holding(dev: Device, c: Codec, bs: nat, f: File, content: Option<seq<Block>>, offset: nat)
    requires bs > 0
  {
    content.Some? && Holds(dev, c, bs, f, content.value) && offset <= f.size
  }

  /** The state before the first rebuilt group, from what the file shows. */
  lemma {:induction false} StartRewrite(dev: Device, c: Codec, bs: nat, f: File, content: seq<Block>, total: nat)
    requires bs > 0 && Presents(dev, c, bs, f, content) && CeilDiv(f.size, bs) <= total
    ensures var x := Extended(content, total, bs);
      |x| == total && AllSized(x, bs) && ZeroOutside(Collect(f), x, bs) && Shows(dev, c, Collect(f), x)
  {
    assert |content| <= total;
    hide Covers, Shows, Collect, CeilDiv, Has;
    ExtendedProps(content, total, bs);
    ShowsExtended(dev, c, Collect(f), content, total, bs);
  }

  /** What storing the rebuilt list makes of the file. */
  lemma {:induction false} StoredRewrite(dev: Device, c: Codec, bs: nat, f: File, f': File, list: seq<Ext>,
                                         news: seq<Ext>,
                                         content: seq<Block>, t: Touched, offset: nat, buf: Bytes)
    requires bs > 0 && |buf| > 0 && t == TouchedBy(bs, offset, |buf|, f.size) && offset <= f.size
    requires t.blocks == CeilDiv(f'.size, bs)
    requires |content| == CeilDiv(f.size, bs) && AllSized(content, bs) && Covers(Collect(f), 0, |content|)
    requires AllOk(list) && Sorted(list) && Within(list, t.blocks) && InRewrite(Collect(f), list, news, t, t.last + 1)
    requires Stores(f', Coalesce(list))
    requires Shows(dev, c, list, Overwritten(Collect(f), Extended(content, t.blocks, bs), t, bs, offset, buf))
    ensures Covers(Collect(f'), 0, t.blocks) <==> CutsNothing(Collect(f), t)
    ensures CutsNothing(Collect(f), t) ==>
      Holds(dev, c, bs, f', Overwritten(Collect(f), Extended(content, t.blocks, bs), t, bs, offset, buf))
    ensures Aligned(Collect(f)) ==> Aligned(Collect(f'))
  {
    hide Covers, Shows, Collect, CeilDiv, Overwritten, Extended, Stores, Coalesce, KeepLeft, KeepRight, Uncut, Aligned,
         AllSized;
    TouchedGroups(bs, offset, |buf|, f.size);
    var x, list0 := Extended(content, t.blocks, bs), Collect(f);
    ExtendedProps(content, t.blocks, bs);
    OverwrittenEnds(list0, x, t, bs, offset, buf, f.size);
    RebuiltCovers(list0, news, t.first * GROUP, GroupEnd(t.last, t.blocks), |content|, t.blocks);
    StoredCovers(f', list, t.blocks);
    if CutsNothing(list0, t) {
      StoredHolds(dev, c, bs, f', list, Overwritten(list0, x, t, bs, offset, buf));
    }
    if Aligned(list0) {
      AlignedCutsNothing(list0, t, |content|);
      RebuiltAligned(list0, news, t.first * GROUP, GroupEnd(t.last, t.blocks));
      StoredHolds(dev, c, bs, f', list, Overwritten(list0, x, t, bs, offset, buf));
    }
  }

  /** The rebuilt list shows what was there, less what was dropped, with the bytes laid over it. */
  ghost predicate ShowsRewritten(dev: Device, c: Codec, bs: nat, f: File, content: seq<Block>, offset: nat, buf: Bytes,
                                 news: seq<Ext>)
    requires bs > 0 && |buf| > 0
  {
    var t, list := TouchedBy(bs, offset, |buf|, f.size), Collect(f);
    Shows(dev, c, Rebuilt(list, news, t.first * GROUP, GroupEnd(t.last, t.blocks)),
          Overwritten(list, Extended(content, t.blocks, bs), t, bs, offset, buf))
  }

  lemma {:induction false} RewroteGroups(dev: Device, c: Codec, a: Algo, bs: nat, f: File, f': File, list: seq<Ext>,
                                         news: seq<Ext>, content: seq<Block>, t: Touched, offset: nat, buf: Bytes)
    requires bs > 0 && |buf| > 0 && t == TouchedBy(bs, offset, |buf|, f.size) && !PureAppend(f.size, offset, bs)
    requires InRewrite(Collect(f), list, news, t, t.last + 1) && GroupShape(news, t, t.last + 1)
    requires Stores(f', Coalesce(list))
    requires AllPacked(c, a, bs, news, Overwritten(Collect(f), Extended(content, t.blocks, bs), t, bs, offset, buf))
    requires Shows(dev, c, list, Overwritten(Collect(f), Extended(content, t.blocks, bs), t, bs, offset, buf))
    ensures WroteGroups(c, a, bs, f, f', content, offset, buf, news)
    ensures ShowsRewritten(dev, c, bs, f, content, offset, buf, news)
  {
    hide Shows, Stores, Coalesce, Collect, Overwritten, Extended, AllPacked, PureAppend, Rebuilt, Covers, Aligned,
         GroupShape,
         TouchedBy;
    TouchedGroups(bs, offset, |buf|, f.size);
  }

  lemma {:induction false} ThisIsAppend(size: nat, offset: nat, bs: nat)
    requires bs > 0 && offset >= size
    requires (CeilDiv(size, bs) == 0 || offset / bs / GROUP >= CeilDiv(CeilDiv(size, bs), GROUP))
    ensures PureAppend(size, offset, bs)
  {
  }

  lemma {:induction false} ThisIsNoAppend(size: nat, offset: nat, bs: nat)
    requires bs > 0
    requires !(offset >= size && (CeilDiv(size, bs) == 0 || offset / bs / GROUP >= CeilDiv(CeilDiv(size, bs), GROUP)))
    ensures !PureAppend(size, offset, bs)
  {
  }

  lemma {:induction false} AppendIsSafe(dev: Device, c: Codec, bs: nat, f: File, f': File, content: seq<Block>,
                                        offset: nat, buf: Bytes)
    requires bs > 0 && |buf| > 0 && PureAppend(f.size, offset, bs)
    requires Holds(dev, c, bs, f', Written(content, CeilDiv(f'.size, bs), bs, offset, buf))
    ensures WriteSafe(f, content, bs, offset, |buf|) && KeepsGapless(f, bs, offset, |buf|) && Gapless(f', bs)
  {
    hide Covers, Shows, Collect, PureAppend, Written, CutsNothing, DropsZeros;
  }

  lemma {:induction false} RewriteIsSafe(dev0: Device, dev: Device, c: Codec, bs: nat, f: File, f': File,
                                         content: seq<Block>, offset: nat, buf: Bytes)
    requires bs > 0 && |buf| > 0 && !PureAppend(f.size, offset, bs) && offset <= f.size
    requires f'.size == NewSize(f.size, offset, |buf|)
    requires Holds(dev0, c, bs, f, content)
    requires var t := TouchedBy(bs, offset, |buf|, f.size);
      && (Covers(Collect(f'), 0, t.blocks) <==> CutsNothing(Collect(f), t))
      && (CutsNothing(Collect(f), t) ==>
          Holds(dev, c, bs, f', Overwritten(Collect(f), Extended(content, t.blocks, bs), t, bs, offset, buf)))
    ensures Gapless(f', bs) <==> KeepsGapless(f, bs, offset, |buf|)
    ensures Holds(dev, c, bs, f', Written(content, CeilDiv(f'.size, bs), bs, offset, buf))
      <==> WriteSafe(f, content, bs, offset, |buf|)
  {
    hide Covers, Shows, Collect, PureAppend, Extended, CutsNothing, DropsZeros, OverlayBlocks, Remaining, ZeroFrom;
    TouchedGroups(bs, offset, |buf|, f.size);
    var t := TouchedBy(bs, offset, |buf|, f.size);
    var x := Extended(content, t.blocks, bs);
    ExtendedProps(content, t.blocks, bs);
    OverwrittenIsWritten(Collect(f), x, t, bs, offset, buf);
    if Holds(dev, c, bs, f', OverlayBlocks(x, 0, offset, buf)) && CutsNothing(Collect(f), t) {
      HoldsOne(dev, c, bs, f', OverlayBlocks(x, 0, offset, buf), Overwritten(Collect(f), x, t, bs, offset, buf));
    }
  }

  // ----- appends

  /** The extents of the touched groups up to group g, one for each. */
  ghost predicate GroupShape(news: seq<Ext>, t: Touched, g: nat) {
    && t.first <= g <= t.last + 1 && |news| == g - t.first && AllOk(news)
    && Covers(news, t.first * GROUP, Boundary(g, t))
    && forall i | 0 <= i < |news| :: news[i].ls == (t.first + i) * GROUP
  }

  /** The extent takes as few physical blocks as storing its part of the content calls for. */
  ghost predicate PackedAs(c: Codec, a: Algo, bs: nat, e: Ext, z: seq<Block>)
    requires bs > 0
  {
    End(e) <= |z| && e.pc == StoredBlocks(c, a, z[e.ls..End(e)], bs)
  }

  ghost predicate AllPacked(c: Codec, a: Algo, bs: nat, news: seq<Ext>, z: seq<Block>)
    requires bs > 0
  {
    forall i | 0 <= i < |news| :: PackedAs(c, a, bs, news[i], z)
  }

  lemma {:induction false} PackedNext(c: Codec, a: Algo, bs: nat, news: seq<Ext>, e: Ext, z: seq<Block>)
    requires bs > 0 && AllPacked(c, a, bs, news, z) && PackedAs(c, a, bs, e, z)
    ensures AllPacked(c, a, bs, news + [e], z)
  {
    hide PackedAs;
  }

  /** What a write makes of a file's extents: each touched group becomes one extent, compressed exactly when that
      saves blocks. They follow the old extents in an append, and otherwise replace what the groups held. */
  ghost predicate WroteGroups(c: Codec, a: Algo, bs: nat, f: File, f': File, content: seq<Block>, offset: nat,
                              buf: Bytes, news: seq<Ext>)
    requires bs > 0 && |buf| > 0
  {
    var t := TouchedBy(bs, offset, |buf|, f.size);
    var x := Extended(content, t.blocks, bs);
    && GroupShape(news, t, t.last + 1)
    && if PureAppend(f.size, offset, bs) then
         Collect(f') == Collect(f) + news && AllPacked(c, a, bs, news, OverlayBlocks(x, 0, offset, buf))
       else
         && Stores(f', Coalesce(Rebuilt(Collect(f), news, t.first * GROUP, GroupEnd(t.last, t.blocks))))
         && AllPacked(c, a, bs, news, Overwritten(Collect(f), x, t, bs, offset, buf))
  }

  /** An overflow record starts where one of the touched groups does. */
  ghost predicate GroupClash(over: seq<Ext>, t: Touched) {
    exists g: nat :: ClashAt(over, t, g)
  }

  ghost predicate ClashAt(over: seq<Ext>, t: Touched, g: nat) {
    t.first <= g <= t.last && HasKey(over, g * GROUP)
  }

  lemma {:induction false} ShapeNext(news: seq<Ext>, t: Touched, g: nat, e: Ext)
    requires GroupShape(news, t, g) && g <= t.last && t.last * GROUP < t.blocks
    requires ExtOk(e) && e.ls == g * GROUP && End(e) == GroupEnd(g, t.blocks)
    ensures GroupShape(news + [e], t, g + 1)
  {
    assert Covers([e], e.ls, End(e)) by { assert [e][1..] == []; }
    CoversConcat(news, [e], t.first * GROUP, e.ls, End(e));
  }

  lemma {:induction false} RightKept(dev: Device, dev': Device, list: seq<Ext>, gs: nat, ge: nat)
    requires gs < ge && Sorted(list) && AllOk(list) && SameOn(dev, dev', Owned(CutAll(list, gs, ge)))
    ensures SameOn(dev, dev', Owned(KeepRight(list, ge)))
  {
    hide Owned, CutAll, KeepLeft, KeepRight, SameOn;
    CutIsKeep(list, gs, ge);
    OwnedConcat(KeepLeft(list, gs), KeepRight(list, ge));
    SameOnParts(dev, dev', Owned(KeepLeft(list, gs)), Owned(KeepRight(list, ge)));
  }

  /** The rest of the original list is the rest of the list as it stands, and the device keeps it. */
  lemma {:induction false} LaterKept(dev0: Device, dev: Device, dev': Device, list0: seq<Ext>, list: seq<Ext>,
                                     news: seq<Ext>, t: Touched, g: nat)
    requires AllOk(list0) && Sorted(list0) && InRewrite(list0, list, news, t, g) && g < t.last
    requires t.last * GROUP < t.blocks
    requires SameOn(dev0, dev, Owned(Later(list0, t, g)))
    requires SameOn(dev, dev', Owned(KeepRight(list, GroupEnd(g, t.blocks))))
    ensures SameOn(dev0, dev', Owned(Later(list0, t, g + 1)))
  {
    hide Owned, SameOn, KeepLeft, KeepRight;
    var ge := (g + 1) * GROUP;
    assert GroupEnd(g, t.blocks) == ge;
    LaterRest(list0, list, news, t, g);
    if g > t.first {
      KeepRightTwice(list0, g * GROUP, ge) by { assert forall i | 0 <= i < |list0| :: ExtOk(list0[i]); }
      LaterOk(list0, g * GROUP);
    }
    KeepRightOwned(Later(list0, t, g), ge);
    SameOnLess(dev0, dev, Owned(KeepRight(list0, ge)), Owned(Later(list0, t, g)));
    SameOnTrans(dev0, dev, dev', Owned(KeepRight(list0, ge)));
  }

  lemma {:induction false} LaterOk(list: seq<Ext>, x: nat)
    requires AllOk(list) && Sorted(list)
    ensures AllOk(KeepRight(list, x))
  {
    var n := if list == [] then 0 else End(list[|list| - 1]);
    forall i | 0 <= i < |list| ensures End(list[i]) <= n {
      assert i < |list| - 1 ==> End(list[i]) <= list[|list| - 1].ls;
    }
    KeepRightSorted(list, x, n);
  }

  lemma {:induction false} LaterRest(list0: seq<Ext>, list: seq<Ext>, news: seq<Ext>, t: Touched, g: nat)
    requires AllOk(list0) && Sorted(list0) && InRewrite(list0, list, news, t, g) && g < t.last
    ensures KeepRight(list, (g + 1) * GROUP) == KeepRight(list0, (g + 1) * GROUP)
  {
    if g != t.first {
      RebuiltAgain(list0, news, t.first * GROUP, g * GROUP, (g + 1) * GROUP);
    }
  }

  lemma {:induction false} NoGroups(t: Touched)
    requires t.first <= t.last
    ensures GroupShape([], t, t.first)
  {
  }

  lemma {:induction false} NothingAppended(f: File, k: nat, w: multiset<Lba>, t: Touched)
    requires |f.slots| == INLINE && k <= INLINE && t.first <= t.last
    ensures AppendAll(f, k, []) == f && w + Owned([]) == w && Collect(f) + [] == Collect(f)
    ensures GroupShape([], t, t.first)
  {
  }

  lemma {:induction false} ShowsNone(dev: Device, c: Codec, z: seq<Block>)
    ensures Shows(dev, c, [], z)
  {
  }

  lemma {:induction false} ShowsNext(dev: Device, dev': Device, c: Codec, news: seq<Ext>, e: Ext, z: seq<Block>)
    requires Shows(dev, c, news, z) && SameOn(dev, dev', Owned(news)) && ExtShows(dev', c, e, z)
    ensures Shows(dev', c, news + [e], z)
  {
    hide ExtShows, SameOn, Owned;
    ShowsFrame(dev, dev', c, news, z);
    ShowsConcat(dev', c, news, [e], z);
  }

  /** What an append makes of any file, wherever it starts: each touched group becomes one extent, compressed exactly
      when that saves blocks, that shows the new bytes over zeros; the extents are added one by one. */
  ghost predicate AppendedGroups(dev: Device, c: Codec, a: Algo, bs: nat, f: File, f': File, offset: nat, buf: Bytes,
                                 news: seq<Ext>)
    requires bs > 0 && |buf| > 0
  {
    var t := TouchedBy(bs, offset, |buf|, f.size);
    && GroupShape(news, t, t.last + 1) && |f.slots| == INLINE
    && (exists k :: 0 <= k <= INLINE && PrefixUsed(f.slots, k) && f' == AppendAll(f.(size := f'.size), k, news))
    && Shows(dev, c, news, Fresh(t.blocks, bs, offset, buf))
    && AllPacked(c, a, bs, news, Fresh(t.blocks, bs, offset, buf))
  }

  lemma {:induction false} GroupsAppended(dev: Device, c: Codec, a: Algo, bs: nat, f: File, f': File, k: nat,
                                          news: seq<Ext>, t: Touched, offset: nat, buf: Bytes)
    requires bs > 0 && |buf| > 0 && t == TouchedBy(bs, offset, |buf|, f.size) && GroupShape(news, t, t.last + 1)
    requires |f.slots| == INLINE && k <= INLINE && PrefixUsed(f.slots, k)
    requires f' == AppendAll(f.(size := f'.size), k, news)
    requires Shows(dev, c, news, Fresh(t.blocks, bs, offset, buf))
    requires AllPacked(c, a, bs, news, Fresh(t.blocks, bs, offset, buf))
    ensures AppendedGroups(dev, c, a, bs, f, f', offset, buf, news)
  {
    hide GroupShape, Shows, AllPacked, Fresh, AppendAll, PrefixUsed, TouchedBy;
  }

  lemma {:induction false} ShapeClash(over: seq<Ext>, news: seq<Ext>, t: Touched)
    requires GroupShape(news, t, t.last + 1)
    ensures Clash(over, news) <==> GroupClash(over, t)
  {
    hide HasKey;
    if i :| 0 <= i < |news| && HasKey(over, news[i].ls) {
      assert ClashAt(over, t, t.first + i);
    }
    if GroupClash(over, t) {
      var g: nat :| ClashAt(over, t, g);
      assert news[g - t.first].ls == g * GROUP;
    }
  }

  /** Counting the references of the file that was appended to. */
  lemma {:induction false} AppendCounts(files0: seq<File>, files: seq<File>, ino: nat, f: File, k: nat, news: seq<Ext>,
                                        t: Touched,
                                        used: set<Lba>, refs: map<Lba, nat>, reserved: set<Lba>)
    requires OnlyFile(files0, files, ino) && LooseFile(f) && PrefixUsed(f.slots, k)
    requires Collect(f) == Collect(files0[ino])
    requires f.over == files0[ino].over && files[ino] == AppendAll(f, k, news) && GroupShape(news, t, t.last + 1)
    requires forall i | 0 <= i < |files0| :: LooseFile(files0[i])
    requires Balanced(used, refs, reserved, (Others(files0, ino) + Owned(Collect(f))) + Owned(news))
    ensures forall i | 0 <= i < |files| :: LooseFile(files[i])
    ensures Balanced(used, refs, reserved, Total(files)) <==> !GroupClash(f.over, t)
    ensures Total(files) == Others(files0, ino) + Owned(Collect(files[ino]))
    ensures !GroupClash(f.over, t) ==> Total(files) == (Others(files0, ino) + Owned(Collect(f))) + Owned(news)
  {
    hide LooseFile, Balanced, Owned, Total, Others, Collect, AppendAll, GroupClash;
    CoversBounds(news, t.first * GROUP, Boundary(t.last + 1, t));
    AppendAllOwned(f, k, news);
    ShapeClash(f.over, news, t);
    TotalAround(files, ino);
    OthersKept(files0, ino, files[ino]);
    var m, a, n, r := Others(files0, ino), Owned(Collect(f)), Owned(news), Owned(Collect(files[ino]));
    if Balanced(used, refs, reserved, m + r) {
      BalancedOne(used, refs, reserved, m + r, (m + a) + n);
      CancelLeft(m, a, n, r);
    }
    assert r == a + n ==> m + r == (m + a) + n;
  }

  lemma {:induction false} CancelLeft(m: multiset<Lba>, a: multiset<Lba>, n: multiset<Lba>, r: multiset<Lba>)
    requires m + r == (m + a) + n
    ensures r == a + n
  {
    forall x ensures r[x] == (a + n)[x] {
      assert (m + r)[x] == ((m + a) + n)[x];
    }
  }

  /** Appending to an ordered file keeps all files ordered. */
  lemma {:induction false} AppendStaysOrdered(files0: seq<File>, files: seq<File>, ino: nat, f: File, k: nat,
                                              news: seq<Ext>, t: Touched,
                                              bs: nat, offset: nat, len: nat)
    requires bs > 0 && len > 0 && OnlyFile(files0, files, ino) && forall i | 0 <= i < |files0| :: FileOk(files0[i], bs)
    requires f == files0[ino].(size := NewSize(files0[ino].size, offset, len)) && |f.slots| == INLINE
    requires PrefixUsed(f.slots, k)
    requires Within(Collect(f), t.first * GROUP)
    requires files[ino] == AppendAll(f, k, news) && GroupShape(news, t, t.last + 1)
    requires t == TouchedBy(bs, offset, len, files0[ino].size)
    ensures forall i | 0 <= i < |files| :: FileOk(files[i], bs)
    ensures !GroupClash(f.over, t)
  {
    hide Collect, LayoutOk, AppendAll, Sorted, AllOk, Within, Covers;
    assert FileOk(files0[ino], bs);
    SizeOnly(files0[ino], f.size);
    TouchedGroups(bs, offset, len, files0[ino].size);
    AppendAllOrdered(f, k, news, t.first * GROUP, Boundary(t.last + 1, t));
    AppendAllLayout(f, k, news);
    WithinMore(Collect(files[ino]), Boundary(t.last + 1, t), t.blocks);
    assert CeilDiv(f.size, bs) == t.blocks;
    NoneBehind(f, t);
  }

  lemma {:induction false} NoneBehind(f: File, t: Touched)
    requires AllOk(Collect(f)) && Within(Collect(f), t.first * GROUP)
    ensures !GroupClash(f.over, t)
  {
    var list, n := Collect(f), |InlineExts(f.slots, 0)|;
    forall i | 0 <= i < |f.over| ensures f.over[i].ls < t.first * GROUP {
      assert list[n + i] == f.over[i] && ExtOk(list[n + i]) && End(list[n + i]) <= t.first * GROUP;
    }
    forall g: nat ensures !ClashAt(f.over, t, g) {
    }
  }

  /** The extents appended to a gapless file show the written content, as the old ones do. */
  lemma {:induction false} TailShown(dev: Device, c: Codec, bs: nat, list: seq<Ext>, news: seq<Ext>, x: seq<Block>,
                                     k: nat, offset: nat, buf: Bytes)
    requires Covers(list, 0, k) && Covers(news, k, |x|) && AllSized(x, bs) && ZeroFrom(x, k, bs) && k * bs <= offset
    requires Shows(dev, c, list, x) && Shows(dev, c, news, Fresh(|x|, bs, offset, buf))
    ensures var y := OverlayBlocks(x, 0, offset, buf);
      |y| == |x| && AllSized(y, bs) && Covers(list + news, 0, |y|) && Shows(dev, c, list + news, y)
  {
    hide Covers, Shows, OverlayBlocks, Fresh;
    var y, z := OverlayBlocks(x, 0, offset, buf), Fresh(|x|, bs, offset, buf);
    CoversBounds(list, 0, k);
    CoversBounds(news, k, |x|);
    CoversConcat(list, news, 0, k, |x|);
    WrittenTail(x, bs, k, offset, buf);
    ShowsAgreed(dev, c, list, x, y, 0, k);
    ShowsAgreed(dev, c, news, z, y, k, |x|);
    ShowsConcat(dev, c, list, news, y);
  }

  lemma {:induction false} ShapeAligned(news: seq<Ext>, t: Touched, g: nat)
    requires GroupShape(news, t, g)
    ensures Aligned(news)
  {
  }

  /** What a gapless file holds after the append. */
  lemma {:induction false} AppendHolds(dev0: Device, dev: Device, c: Codec, a: Algo, bs: nat, f0: File, f': File,
                                       k: nat, news: seq<Ext>, content: seq<Block>, t: Touched, offset: nat, buf: Bytes)
    requires bs > 0 && |buf| > 0 && LayoutOk(f0) && PrefixUsed(f0.slots, k) && AllOk(Collect(f0))
    requires PureAppend(f0.size, offset, bs) && offset <= f0.size && t == TouchedBy(bs, offset, |buf|, f0.size)
    requires t.oldBlocks == t.first * GROUP && f' == AppendAll(f0.(size := f'.size), k, news)
    requires f'.size == NewSize(f0.size, offset, |buf|) && GroupShape(news, t, t.last + 1)
    requires Holds(dev0, c, bs, f0, content) && SameOn(dev0, dev, Owned(Collect(f0)))
    requires Shows(dev, c, news, Fresh(t.blocks, bs, offset, buf))
    requires AllPacked(c, a, bs, news, Fresh(t.blocks, bs, offset, buf))
    ensures Collect(f') == Collect(f0) + news && Holds(dev, c, bs, f', Written(content, t.blocks, bs, offset, buf))
    ensures Aligned(Collect(f0)) ==> Aligned(Collect(f'))
    ensures WroteGroups(c, a, bs, f0, f', content, offset, buf, news)
  {
    hide Collect, Covers, Shows, AllSized, Aligned, AllOk, LayoutOk, PrefixUsed, AppendAll, Fresh, AllPacked, SameOn,
         Owned, GroupShape, PureAppend, WroteGroups, OverlayBlocks, Extended;
    TouchedGroups(bs, offset, |buf|, f0.size);
    HeldParts(dev0, c, bs, f0, content);
    SizeOnly(f0, f'.size);
    ShapeCovers(news, t);
    hide *;
    AppendShown(dev0, dev, c, a, bs, Collect(f0), news, content, t.first * GROUP, t.blocks, offset, buf);
    AppendAllExact(f0.(size := f'.size), k, news, t.first * GROUP, t.blocks);
    NowHolds(dev, c, bs, f', Written(content, t.blocks, bs, offset, buf));
    if Aligned(Collect(f0)) {
      AlignedConcat(Collect(f0), news);
    }
    NowWrote(c, a, bs, f0, f', news, content, t, offset, buf);
  }

  /** The extents of the written content: those of the old one and the new ones. */
  lemma {:induction false} AppendShown(dev0: Device, dev: Device, c: Codec, a: Algo, bs: nat, list: seq<Ext>,
                                       news: seq<Ext>, content: seq<Block>, k: nat, n: nat, offset: nat, buf: Bytes)
    requires bs > 0 && |content| == k <= n && AllSized(content, bs) && k * bs <= offset
    requires Covers(list, 0, k) && Covers(news, k, n) && Shows(dev0, c, list, content) && SameOn(dev0, dev, Owned(list))
    requires Shows(dev, c, news, Fresh(n, bs, offset, buf)) && AllPacked(c, a, bs, news, Fresh(n, bs, offset, buf))
    ensures var y := Written(content, n, bs, offset, buf);
      && |y| == n && AllSized(y, bs) && Covers(list + news, 0, n) && Shows(dev, c, list + news, y)
      && AllPacked(c, a, bs, news, y)
  {
    hide Covers, Shows, AllSized, OverlayBlocks, Fresh, AllPacked, SameOn, Owned, Extended, ZeroFrom;
    ExtendedProps(content, n, bs);
    ShowsExtended(dev0, c, list, content, n, bs);
    var x := Extended(content, n, bs);
    ShowsFrame(dev0, dev, c, list, x);
    TailShown(dev, c, bs, list, news, x, k, offset, buf);
    PackedTail(c, a, bs, news, x, k, offset, buf);
  }

  lemma {:induction false} NowWrote(c: Codec, a: Algo, bs: nat, f: File, f': File, news: seq<Ext>, content: seq<Block>,
                                    t: Touched, offset: nat, buf: Bytes)
    requires bs > 0 && |buf| > 0 && t == TouchedBy(bs, offset, |buf|, f.size) && PureAppend(f.size, offset, bs)
    requires GroupShape(news, t, t.last + 1) && Collect(f') == Collect(f) + news
    requires AllPacked(c, a, bs, news, Written(content, t.blocks, bs, offset, buf))
    ensures WroteGroups(c, a, bs, f, f', content, offset, buf, news)
  {
    hide GroupShape, AllPacked, OverlayBlocks, Extended, TouchedBy, Collect, PureAppend;
  }

  lemma {:induction false} NowHolds(dev: Device, c: Codec, bs: nat, f: File, y: seq<Block>)
    requires bs > 0 && |y| == CeilDiv(f.size, bs) && AllSized(y, bs)
    requires Covers(Collect(f), 0, |y|) && Shows(dev, c, Collect(f), y)
    ensures Holds(dev, c, bs, f, y)
  {
  }

  /** Appended groups reach from the first touched one to the end of the file. */
  lemma {:induction false} ShapeCovers(news: seq<Ext>, t: Touched)
    requires GroupShape(news, t, t.last + 1) && (t.blocks == t.oldBlocks || t.blocks <= GroupEnd(t.last, t.blocks))
    requires t.oldBlocks <= t.first * GROUP && t.last * GROUP < t.blocks
    ensures AllOk(news) && Covers(news, t.first * GROUP, t.blocks) && Aligned(news)
  {
    ShapeAligned(news, t, t.last + 1);
  }

  /** What the appended extents take is what the written content calls for. */
  lemma {:induction false} PackedTail(c: Codec, a: Algo, bs: nat, news: seq<Ext>, x: seq<Block>, k: nat, offset: nat,
                                      buf: Bytes)
    requires bs > 0 && AllSized(x, bs) && ZeroFrom(x, k, bs) && k * bs <= offset && Covers(news, k, |x|) && k <= |x|
    requires AllPacked(c, a, bs, news, Fresh(|x|, bs, offset, buf))
    ensures AllPacked(c, a, bs, news, OverlayBlocks(x, 0, offset, buf))
  {
    hide OverlayBlocks, Fresh, Covers, StoredBlocks;
    var y, z := OverlayBlocks(x, 0, offset, buf), Fresh(|x|, bs, offset, buf);
    CoversBounds(news, k, |x|);
    WrittenTail(x, bs, k, offset, buf);
    forall i | 0 <= i < |news| ensures PackedAs(c, a, bs, news[i], y) {
      var e := news[i];
      assert PackedAs(c, a, bs, e, z);
      assert y[k..] == y[k..|y|] && z[k..] == z[k..|z|];
      SliceOfSlice(y, k, |y|, e.ls - k, End(e) - k);
      SliceOfSlice(z, k, |z|, e.ls - k, End(e) - k);
    }
  }

  function BlockAt(pos: nat, bs: nat): nat
    requires bs > 0
  {
    pos / bs
  }

  /** Bytes that a read of `size` bytes at `offset` returns. */
  function ReadSize(offset: nat, size: nat, fileSize: nat): nat {
    if offset >= fileSize then 0 else if offset + size > fileSize then fileSize - offset else size
  }

  /** The bytes so far are those that the list shows. */
  ghost predicate BytesShown(dev: Device, c: Codec, bs: nat, list: seq<Ext>, offset: nat, buf: Bytes)
    requires bs > 0
  {
    forall j | 0 <= j < |buf| :: ShownAt(dev, c, bs, list, offset + j, buf[j])
  }

  ghost predicate ShownAt(dev: Device, c: Codec, bs: nat, list: seq<Ext>, pos: nat, y: byte)
    requires bs > 0
  {
    exists k :: 0 <= k < |list| && ByteOf(dev, c, bs, list[k], pos, y)
  }

  ghost predicate AllServed(dev: Device, c: Codec, bs: nat, list: seq<Ext>, start: nat, from: nat, to: nat)
    requires bs > 0
  {
    forall q | from <= q < to :: Served(dev, c, bs, list, start, q)
  }

  lemma {:induction false} ServedParts(dev: Device, c: Codec, bs: nat, list: seq<Ext>, start: nat, a: nat, b: nat,
                                       d: nat)
    requires bs > 0 && a <= b <= d
    ensures AllServed(dev, c, bs, list, start, a, d)
      <==> AllServed(dev, c, bs, list, start, a, b) && AllServed(dev, c, bs, list, start, b, d)
    ensures AllServed(dev, c, bs, list, start, a, a)
  {
    hide Served;
  }

  lemma {:induction false} ShownParts(dev: Device, c: Codec, bs: nat, list: seq<Ext>, offset: nat, buf: Bytes,
                                      out: Bytes)
    requires bs > 0 && BytesShown(dev, c, bs, list, offset, buf) && BytesShown(dev, c, bs, list, offset + |buf|, out)
    ensures BytesShown(dev, c, bs, list, offset, buf + out)
  {
    hide ShownAt;
    forall j | 0 <= j < |buf + out| ensures ShownAt(dev, c, bs, list, offset + j, (buf + out)[j]) {
      if j >= |buf| {
        assert ShownAt(dev, c, bs, list, offset + |buf| + (j - |buf|), out[j - |buf|]);
      }
    }
  }

  lemma {:induction false} ShownMore(dev: Device, c: Codec, bs: nat, list: seq<Ext>, offset: nat, buf: Bytes, k: nat,
                                     out: Bytes)
    requires bs > 0 && k < |list| && BytesShown(dev, c, bs, list, offset, buf)
    requires forall j | 0 <= j < |out| :: ByteOf(dev, c, bs, list[k], offset + |buf| + j, out[j])
    ensures BytesShown(dev, c, bs, list, offset, buf + out)
  {
    hide ByteOf;
    forall j | 0 <= j < |buf + out| ensures ShownAt(dev, c, bs, list, offset + j, (buf + out)[j]) {
      if j < |buf| {
        assert ShownAt(dev, c, bs, list, offset + j, buf[j]);
      } else {
        assert ByteOf(dev, c, bs, list[k], offset + |buf| + (j - |buf|), out[j - |buf|]);
      }
    }
  }

  /** Position q lies in an uncompressed extent, but its block is not on the device. */
  ghost predicate MissingAt(dev: Device, e: Ext, bs: nat, q: nat)
    requires bs > 0
  {
    Plain(e) && In(e, q / bs) && e.ps + (q / bs - e.ls) >= |dev|
  }

  lemma {:induction false} SameBlock(pos: nat, j: nat, b: nat, o: nat, bs: nat)
    requires bs > 0 && pos / bs == b && pos % bs == o && o + j < bs
    ensures (pos + j) / bs == b && (pos + j) % bs == o + j
  {
    Position(pos, bs);
    DivModUnique(pos + j, bs, b, o + j);
  }

  lemma {:induction false} StartOf(e: Ext, pos: nat, bs: nat)
    requires bs > 0 && In(e, BlockAt(pos, bs))
    ensures (pos / bs - e.ls) * bs + pos % bs >= 0 && e.ls * bs + ((pos / bs - e.ls) * bs + pos % bs) == pos
  {
    Position(pos, bs);
    Distribute(e.ls, pos / bs, bs);
  }

  lemma {:induction false} PackedByte(dev: Device, c: Codec, bs: nat, e: Ext, pos: nat, j: nat, want: nat, n: nat,
                                      x: Bytes, y: byte)
    requires bs > 0 && In(e, BlockAt(pos, bs)) && j < want <= Available(e, pos, bs) && !Plain(e)
    requires UnpacksTo(dev, c, e.ps, n, x)
    requires var at := (pos / bs - e.ls) * bs + pos % bs; at >= 0 && (at + j < |x| ==> x[at + j] == y)
    ensures ByteOf(dev, c, bs, e, pos + j, y)
  {
    hide Unpacked, Join, UnpacksTo;
    StillInside(e, pos, j, want, bs);
    StartOf(e, pos, bs);
    StartOf(e, pos + j, bs);
    assert UnpackedByte(dev, c, bs, e, n, x, pos + j, y);
  }

  lemma {:induction false} NoBytes(dev: Device, c: Codec, bs: nat, list: seq<Ext>, offset: nat)
    requires bs > 0
    ensures BytesShown(dev, c, bs, list, offset, [])
  {
  }

  /** The extent that the search finds is the next one. */
  lemma {:induction false} FoundNext(list: seq<Ext>, i: nat, b: nat, e: Ext)
    requires AllOk(list) && Sorted(list) && PassedTo(list, i, b) && Finds(list, b, Some(e))
    ensures i < |list| && list[i] == e && In(e, b)
  {
    var k: nat :| FirstWith(list, b, k) && list[k] == e;
  }

  /** The cache is what the last compressed extent passed left. */
  ghost predicate CacheIs(dev: Device, c: Codec, cache: Cache, last: Option<Lba>) {
    CacheOk(dev, c, cache) && last == match cache case Empty => None case Cached(start, _) => Some(start)
  }

  /** A file that holds its content shows nothing else, and serves every block. */
  lemma {:induction false} HeldBytes(dev: Device, c: Codec, bs: nat, f: File, content: seq<Block>, offset: nat,
                                     buf: Bytes)
    requires bs > 0 && Holds(dev, c, bs, f, content) && f.size <= |Join(content)| && offset + |buf| <= f.size
    requires BytesShown(dev, c, bs, Collect(f), offset, buf)
    ensures buf == FileBytes(content, f.size)[offset..offset + |buf|]
  {
    hide ByteOf, Join, Collect, Covers, ExtShows, AllSized;
    forall j | 0 <= j < |buf| ensures buf[j] == Join(content)[offset + j] {
      assert ShownAt(dev, c, bs, Collect(f), offset + j, buf[j]);
      var k :| 0 <= k < |Collect(f)| && ByteOf(dev, c, bs, Collect(f)[k], offset + j, buf[j]);
      ByteShown(dev, c, bs, Collect(f)[k], content, offset + j, buf[j]);
    }
  }

  lemma {:induction false} HeldServed(dev: Device, c: Codec, bs: nat, f: File, content: seq<Block>, start: nat,
                                      pos: nat)
    requires bs > 0 && Holds(dev, c, bs, f, content) && pos < f.size
    ensures Served(dev, c, bs, Collect(f), start, pos)
  {
    hide Collect, Covers, AllSized, CeilDiv, Shows, Serves;
    InsideFile(bs, pos, f.size);
    var k := CoveredServes(dev, c, Collect(f), content, start / bs, pos / bs);
  }

  lemma {:induction false} InsideFile(bs: nat, pos: nat, size: nat)
    requires bs > 0 && pos < size
    ensures pos / bs < CeilDiv(size, bs)
  {
    LastBlock(bs, pos + 1, size);
  }

  lemma {:induction false} CoveredServes(dev: Device, c: Codec, list: seq<Ext>, content: seq<Block>, from: nat, b: nat)
    returns (k: nat)
    requires Covers(list, 0, |content|) && Shows(dev, c, list, content) && b < |content|
    ensures Serves(dev, c, list, from, k, b)
  {
    hide Covers, ExtShows, Serves, In;
    CoveredFound(list, 0, |content|, b);
    k :| 0 <= k < |list| && In(list[k], b);
    ShownServes(dev, c, list, content, from, k, b);
  }

  lemma {:induction false} ShownServes(dev: Device, c: Codec, list: seq<Ext>, content: seq<Block>, from: nat, k: nat,
                                       b: nat)
    requires k < |list| && In(list[k], b) && ExtShows(dev, c, list[k], content)
    ensures Serves(dev, c, list, from, k, b)
  {
    hide Unpacked, Join;
    var e := list[k];
    assert Plain(e) || UnpacksTo(dev, c, e.ps, e.pc, Join(content[e.ls..End(e)]));
  }

  lemma {:induction false} EmptyCache(dev: Device, c: Codec)
    ensures CacheIs(dev, c, Empty, None)
  {
  }

  lemma {:induction false} NothingFound(dev: Device, c: Codec, bs: nat, list: seq<Ext>, start: nat, pos: nat)
    requires bs > 0 && Finds(list, BlockAt(pos, bs), None)
    ensures !Served(dev, c, bs, list, start, pos)
  {
  }

  /** The cache of the last compressed extent passed serves extent i. */
  ghost predicate Hits(cache: Cache, e: Ext) {
    cache.Cached? && cache.start == e.ps
  }

  lemma {:induction false} ReadFailed(dev: Device, c: Codec, bs: nat, list: seq<Ext>, start: nat, i: nat, pos: nat,
                                      limit: nat, cache: Cache)
    requires bs > 0 && AllOk(list) && Sorted(list) && i < |list| && In(list[i], BlockAt(pos, bs)) && limit > 0
    requires CacheIs(dev, c, cache, LastPacked(list, start / bs, i))
    requires !Plain(list[i]) ==> !Hits(cache, list[i]) && !Unpacks(dev, c, list[i])
    requires Plain(list[i]) ==> exists q :: pos <= q < pos + limit && MissingAt(dev, list[i], bs, q)
    ensures !AllServed(dev, c, bs, list, start, pos, pos + limit)
  {
    hide AllOk, Sorted, CacheOk, LastPacked, Unpacks;
    var q := pos;
    if Plain(list[i]) {
      q :| pos <= q < pos + limit && MissingAt(dev, list[i], bs, q);
    }
    NotServed(dev, c, bs, list, start, q, i);
  }

  lemma {:induction false} ReadServed(dev: Device, c: Codec, bs: nat, list: seq<Ext>, start: nat, i: nat, pos: nat,
                                      out: Bytes, cache: Cache)
    requires bs > 0 && i < |list| && CacheIs(dev, c, cache, LastPacked(list, start / bs, i))
    requires !Plain(list[i]) ==> Hits(cache, list[i]) || Unpacks(dev, c, list[i])
    requires forall j | 0 <= j < |out| :: ByteOf(dev, c, bs, list[i], pos + j, out[j])
    ensures AllServed(dev, c, bs, list, start, pos, pos + |out|)
  {
    hide CacheOk, LastPacked, Unpacks, UnpackedByte;
    forall q | pos <= q < pos + |out| ensures Served(dev, c, bs, list, start, q) {
      var j := q - pos;
      assert ByteOf(dev, c, bs, list[i], pos + j, out[j]);
      assert Serves(dev, c, list, start / bs, i, q / bs);
    }
  }

  /** A read from `start` on is at `pos`, before extent i. */
  ghost predicate Reading(dev: Device, c: Codec, bs: nat, list: seq<Ext>, start: nat, pos: nat, i: nat, cache: Cache)
    requires bs > 0
  {
    && i <= |list| && start / bs <= pos / bs && PassedTo(list, i, pos / bs)
    && CacheIs(dev, c, cache, LastPacked(list, start / bs, i))
  }

  lemma {:induction false} StartReading(dev: Device, c: Codec, bs: nat, list: seq<Ext>, start: nat) returns (i: nat)
    requires bs > 0 && AllOk(list) && Sorted(list)
    ensures Reading(dev, c, bs, list, start, start, i, Empty)
  {
    i := FirstPassed(list, start / bs);
    EmptyCache(dev, c);
  }

  /** An extent read to its end. */
  lemma {:induction false} ReadOn(dev: Device, c: Codec, bs: nat, list: seq<Ext>, start: nat, i: nat, pos: nat,
                                  cache: Cache, cache': Cache)
    requires bs > 0 && AllOk(list) && Sorted(list) && Reading(dev, c, bs, list, start, pos, i, cache) && i < |list|
    requires In(list[i], BlockAt(pos, bs)) && CacheOk(dev, c, cache')
    requires if Plain(list[i]) then cache' == cache else Hits(cache', list[i])
    ensures Available(list[i], pos, bs) > 0
    ensures Reading(dev, c, bs, list, start, pos + Available(list[i], pos, bs), i + 1, cache')
  {
    hide AllOk, Sorted, PassedTo, CacheOk;
    AvailablePositive(list[i], pos, bs);
    DivModUnique(End(list[i]) * bs, bs, End(list[i]), 0);
    NextPassed(list, i, pos / bs);
  }

  lemma {:induction false} AtExtent(dev: Device, c: Codec, bs: nat, list: seq<Ext>, start: nat, i: nat, pos: nat,
                                    cache: Cache, e: Ext)
    requires bs > 0 && AllOk(list) && Sorted(list) && Reading(dev, c, bs, list, start, pos, i, cache)
    requires Finds(list, BlockAt(pos, bs), Some(e))
    ensures i < |list| && list[i] == e && In(e, BlockAt(pos, bs)) && Available(e, pos, bs) > 0
    ensures CacheOk(dev, c, cache) && CacheIs(dev, c, cache, LastPacked(list, start / bs, i))
  {
    FoundNext(list, i, pos / bs, e);
    AvailablePositive(e, pos, bs);
  }

  /** Where one extent holds a block, no other can serve it. */
  lemma {:induction false} NotServed(dev: Device, c: Codec, bs: nat, list: seq<Ext>, start: nat, pos: nat, k: nat)
    requires bs > 0 && AllOk(list) && Sorted(list) && k < |list| && In(list[k], pos / bs)
    requires !Serves(dev, c, list, start / bs, k, pos / bs)
    ensures !Served(dev, c, bs, list, start, pos)
  {
    hide AllOk, Sorted, In;
    forall j: nat ensures !Serves(dev, c, list, start / bs, j, pos / bs) {
      if Serves(dev, c, list, start / bs, j, pos / bs) {
        OneHolder(list, j, k, pos / bs);
      }
    }
  }

  /** A chunk starts at the first byte or at a block boundary. */
  ghost predicate ChunkEdge(pos: nat, consumed: nat, want: nat, bs: nat)
    requires bs > 0
  {
    consumed == 0 || consumed == want || (pos % bs + consumed) % bs == 0
  }

  lemma {:induction false} FirstEdge(pos: nat, want: nat, bs: nat)
    requires bs > 0
    ensures ChunkEdge(pos, 0, want, bs)
  {
  }

  lemma {:induction false} DeviceBlock(dev: Device, bs: nat, x: Lba)
    requires AllSized(dev, bs) && x < |dev|
    ensures |dev[x]| == bs
  {
  }

  lemma {:induction false} StillInside(e: Ext, pos: nat, consumed: nat, want: nat, bs: nat)
    requires bs > 0 && In(e, BlockAt(pos, bs)) && consumed < want <= Available(e, pos, bs)
    ensures In(e, (pos + consumed) / bs)
  {
    AvailablePositive(e, pos, bs);
    DivMonotone(pos, pos + consumed, bs);
    DivBounds(pos + consumed, bs);
    if (pos + consumed) / bs >= End(e) {
      MulMonotone(End(e), (pos + consumed) / bs, bs);
    }
  }

  lemma {:induction false} EmptyFiles(n: nat, bs: nat)
    requires bs > 0
    ensures FileOk(EMPTY_FILE, bs) && Total(seq(n, _ => EMPTY_FILE)) == multiset{}
  {
    ClearedCollect(EMPTY_FILE);
    if n > 0 {
      var fs := seq(n, _ => EMPTY_FILE);
      assert fs[1..] == seq(n - 1, _ => EMPTY_FILE);
      EmptyFiles(n - 1, bs);
      OwnedNone(Collect(EMPTY_FILE), multiset{});
    }
  }

  /** Blocks [s, s + n) are free. */
  predicate FreeRun(used: set<Lba>, s: nat, n: nat) {
    forall x | s <= x < s + n :: x !in used
  }

  /** No n free blocks in a row lie wholly in [lo, hi). */
  ghost predicate NoFit(used: set<Lba>, lo: nat, hi: nat, n: nat) {
    forall s: nat | lo <= s && s + n <= hi :: !FreeRun(used, s, n)
  }

  /** s is the lowest start of n free blocks that lie wholly in [lo, hi). */
  ghost predicate FirstFit(used: set<Lba>, lo: nat, hi: nat, n: nat, s: nat) {
    && lo <= s && s + n <= hi && FreeRun(used, s, n)
    && forall s': nat | lo <= s' < s :: !FreeRun(used, s', n)
  }

  /** A search for no blocks behaves as one for a single block. */
  function Need(n: nat): nat {
    if n == 0 then 1 else n
  }

  /** Where a search starts, given next_free_lba. */
  function Hint(nextFree: nat, total: nat): nat {
    if nextFree >= total then 0 else nextFree
  }

  /** The search fails: neither the part from the hint on nor the part before it holds such a run. */
  ghost predicate NotFound(used: set<Lba>, nextFree: nat, total: nat, n: nat) {
    NoFit(used, Hint(nextFree, total), total, n) && NoFit(used, 0, Hint(nextFree, total), n)
  }

  /** The search finds s: the first fit from the hint on, else the first fit before it. */
  ghost predicate FoundAt(used: set<Lba>, nextFree: nat, total: nat, n: nat, s: nat) {
    var hint := Hint(nextFree, total);
    FirstFit(used, hint, total, n, s) || (NoFit(used, hint, total, n) && FirstFit(used, 0, hint, n, s))
  }

  class Volume {
    /** Block size. */
    const bs: nat
    const codec: Codec
    /** Blocks that hold metadata; data operations never touch them. */
    const reserved: set<Lba>

    var device: Device
    /** The allocation bitmap. */
    var used: set<Lba>
    /** The allocation hint: the search for free blocks starts here, and it never moves back. */
    var nextFree: nat
    /** The refcount tree: counts above one. */
    var refs: map<Lba, nat>
    /** Inodes with their overflow extents. */
    var files: seq<File>

    ghost predicate Mounted()
      reads this
    {
      && bs > 0 && GROUP * bs < Pow256(8) && Lossless(codec)
      && AllSized(device, bs)
      && (forall x | x in used :: x < |device|)
    }

    /** Holds between all operations: refcounts equal references, and every extent list is in order. */
    ghost predicate Valid()
      reads this
    {
      && Mounted()
      && (forall i | 0 <= i < |files| :: FileOk(files[i], bs))
      && Balanced(used, refs, reserved, Total(files))
    }

    /** The search for some number of blocks, at most a group, fails: no such run lies on one side of the hint. */
    ghost predicate Exhausted()
      reads this
    {
      exists n :: 0 < n <= GROUP && NotFound(used, nextFree, |device|, n)
    }

    /** How an operation ends: well, for lack of a run of free blocks on one side of the hint, or because a
        compressed extent does not unpack, which does not happen to files that hold their content. */
    ghost predicate Outcome(st: Status, sound: bool)
      reads this
    {
      st != Inval && (st == NoSpace ==> Exhausted()) && (sound ==> st != Io)
    }

    /** A volume with n empty files. */
    constructor (bs: nat, codec: Codec, device: Device, reserved: set<Lba>, hint: nat, n: nat)
      requires bs > 0 && GROUP * bs < Pow256(8) && Lossless(codec) && AllSized(device, bs)
      requires (forall x | x in reserved :: x < |device|)
      ensures Valid() && this.bs == bs && this.codec == codec && this.device == device && this.reserved == reserved
      ensures files == seq(n, _ => EMPTY_FILE) && nextFree == hint
    {
      this.bs, this.codec, this.reserved, this.device := bs, codec, reserved, device;
      used, nextFree, refs, files := reserved, hint, map[], seq(n, _ => EMPTY_FILE);
      new;
      EmptyFiles(n, bs);
    }

    /** free_single_phys_block */
    method FreeSingle(x: Lba, ghost m: multiset<Lba>)
      requires Mounted() && Balanced(used, refs, reserved, m + multiset{x})
      modifies this`used, this`refs
      ensures used <= old(used)
      ensures Mounted() && Balanced(used, refs, reserved, m)
    {
      var ref := RefCount(refs, x);
      if ref > 1 {
        DropShared(used, refs, reserved, m, x);
        refs := SetCount(refs, x, ref - 1);
      } else {
        DropLast(used, refs, reserved, m, x);
        used := used - {x};
      }
    }

    /** Frees `count` physical blocks from `start` on, respecting refcounts. */
    method FreeRange(start: Lba, count: nat, ghost m: multiset<Lba>)
      requires Mounted() && Balanced(used, refs, reserved, m + multiset(Range(start, count)))
      modifies this`used, this`refs
      ensures used <= old(used)
      ensures Mounted() && Balanced(used, refs, reserved, m)
    {
      hide Balanced, Range, Lossless;
      var b := 0;
      while b < count
        invariant used <= old(used)
        invariant 0 <= b <= count && Mounted()
        invariant Balanced(used, refs, reserved, m + multiset(Range(start + b, count - b)))
      {
        PlusFirst(m, start + b, count - b);
        FreeSingle(start + b, m + multiset(Range(start + b + 1, count - b - 1)));
        b := b + 1;
      }
      PlusNone(m, start + b);
    }

    /** Adds one reference to each of `count` physical blocks from `start` on. */
    method ShareRange(start: Lba, count: nat, ghost m: multiset<Lba>)
      requires Mounted() && Balanced(used, refs, reserved, m) && multiset(Range(start, count)) <= m
      modifies this`refs
      ensures Mounted() && Balanced(used, refs, reserved, m + multiset(Range(start, count)))
    {
      hide Balanced, Range, Lossless;
      var b := 0;
      PlusNone(m, start);
      while b < count
        invariant 0 <= b <= count && Mounted()
        invariant Balanced(used, refs, reserved, m + multiset(Range(start, b)))
      {
        PlusLast(m, start, b, start + b, count);
        AddShared(used, refs, reserved, m + multiset(Range(start, b)), start + b);
        refs := SetCount(refs, start + b, RefCount(refs, start + b) + 1);
        b := b + 1;
      }
    }

    /** obmafs3_alloc_blocks: takes the first run that the search finds and moves the hint behind it, never back.
        It fails exactly when no run lies wholly on one side of the hint. */
    method AllocBlocks(n: nat, ghost m: multiset<Lba>) returns (st: Status, start: Lba)
      requires Mounted() && Balanced(used, refs, reserved, m)
      modifies this`used, this`nextFree
      ensures st == Ok || (st == NoSpace && used == old(used) && nextFree == old(nextFree))
      ensures st == NoSpace <==> NotFound(old(used), old(nextFree), |device|, Need(n))
      ensures st == Ok ==> FoundAt(old(used), old(nextFree), |device|, Need(n), start)
      ensures st == Ok ==> used == old(used) + (set x | x in Range(start, n))
      ensures st == Ok ==> nextFree == if start + n > old(nextFree) then start + n else old(nextFree)
      ensures st == Ok ==>
        start + n <= |device| && Mounted() && Balanced(used, refs, reserved, m + multiset(Range(start, n)))
      ensures st == Ok ==> forall x | x in Range(start, n) :: x !in old(used) && m[x] == 0
    {
      var hint := Hint(nextFree, |device|);
      var r := FindRun(hint, |device|, Need(n));
      if r.None? && hint > 0 {
        r := FindRun(0, hint, Need(n));
      }
      if r.None? {
        return NoSpace, 0;
      }
      st, start := Ok, r.value;
      TakeRun(start, n, m);
      if start + n > nextFree {
        nextFree := start + n;
      }
    }

    /** obmafs3_bitmap_find_free on one segment. */
    method FindRun(lo: nat, hi: nat, n: nat) returns (r: Option<nat>)
      ensures r.Some? ==> FirstFit(used, lo, hi, n, r.value)
      ensures r.None? ==> NoFit(used, lo, hi, n)
    {
      var s := lo;
      while s + n <= hi
        invariant lo <= s && forall s': nat | lo <= s' < s :: !FreeRun(used, s', n)
        decreases hi - s
      {
        if FreeRun(used, s, n) {
          return Some(s);
        }
        s := s + 1;
      }
      return None;
    }

    /** obmafs3_bitmap_set on free blocks. */
    method TakeRun(start: Lba, n: nat, ghost m: multiset<Lba>)
      requires Mounted() && Balanced(used, refs, reserved, m) && start + n <= |device| && FreeRun(used, start, n)
      modifies this`used
      ensures used == old(used) + (set x | x in Range(start, n))
      ensures Mounted() && Balanced(used, refs, reserved, m + multiset(Range(start, n)))
      ensures forall x | x in Range(start, n) :: x !in old(used) && m[x] == 0
    {
      forall x: Lba ensures x in Range(start, n) <==> start <= x < start + n {
        InRange(start, n, x);
      }
      AddFresh(used, refs, reserved, m, start, n);
      used := used + (set x | x in Range(start, n));
    }

    /** Writes consecutive device blocks. */
    method WriteDevice(start: Lba, blocks: seq<Block>)
      requires Mounted() && start + |blocks| <= |device| && AllSized(blocks, bs)
      modifies this`device
      ensures Mounted() && |device| == |old(device)|
      ensures device[start..start + |blocks|] == blocks
      ensures forall x | 0 <= x < |device| && !(start <= x < start + |blocks|) :: device[x] == old(device)[x]
    {
      var b := 0;
      while b < |blocks|
        invariant 0 <= b <= |blocks| && Mounted() && |device| == |old(device)|
        invariant forall i | 0 <= i < b :: device[start + i] == blocks[i]
        invariant forall x | 0 <= x < |device| && !(start <= x < start + b) :: device[x] == old(device)[x]
      {
        device := device[start + b := blocks[b]];
        b := b + 1;
      }
    }

    /** Compresses a full group if that saves blocks, then allocates and writes it. */
    method StoreGroup(blocks: seq<Block>, algo: Algo, ghost m: multiset<Lba>) returns (st: Status, ps: Lba, pc: nat)
      requires Mounted() && Balanced(used, refs, reserved, m)
      requires AllSized(blocks, bs) && 0 < |blocks| <= GROUP
      modifies this`used, this`nextFree, this`device
      ensures Outcome(st, true)
      ensures st == Ok ==> Mounted() && 0 < pc <= |blocks| && (pc < |blocks| ==> |blocks| == GROUP)
      ensures pc == StoredBlocks(codec, algo, blocks, bs)
      ensures pc < |blocks| ==>
        && algo != Off && |blocks| == GROUP && codec.compress(algo, Join(blocks)).Some?
        && HEADER_SIZE + |codec.compress(algo, Join(blocks)).value| <= pc * bs
      ensures algo != Off && |blocks| == GROUP && codec.compress(algo, Join(blocks)).Some? ==>
        forall k: nat | HEADER_SIZE + |codec.compress(algo, Join(blocks)).value| <= k * bs :: pc <= k
      ensures st == Ok ==> Balanced(used, refs, reserved, m + multiset(Range(ps, pc))) && SameOn(old(device), device, m)
      ensures st == Ok ==> ExtShows(device, codec, Ext(0, |blocks|, ps, pc), blocks)
    {
      hide Balanced, Lossless, Join, Split, Packed, Unpacked, Pow256;
      StoredLeast(codec, algo, blocks, bs);
      var out := blocks;
      if algo != Off && |blocks| == GROUP {
        var comp := codec.compress(algo, Join(blocks));
        if comp.Some? {
          var needed := CeilDiv(HEADER_SIZE + |comp.value|, bs);
          if needed < |blocks| {
            CompressedGroup(codec, algo, blocks, comp.value, bs);
            out := Split(Packed(codec, algo, comp.value, |Join(blocks)|, bs), bs);
          }
        }
      }
      st, ps := AllocBlocks(|out|, m);
      pc := |out|;
      if st != Ok {
        return;
      }
      WriteDevice(ps, out);
      forall x | x in m && x < |device| ensures old(device)[x] == device[x] {
        InRange(ps, |out|, x);
      }
      GroupShown(device, codec, blocks, out, ps);
    }

    /** Reads consecutive device blocks. */
    method ReadDevice(start: Lba, n: nat) returns (blocks: seq<Block>)
      requires Mounted() && start + n <= |device|
      ensures |blocks| == n && AllSized(blocks, bs) && blocks == device[start..start + n]
    {
      blocks := [];
      while |blocks| < n
        invariant |blocks| <= n && blocks == device[start..start + |blocks|]
      {
        blocks := blocks + [device[start + |blocks|]];
      }
    }

    /** read_extent_blocks: logical blocks [first, first + count) of one extent. */
    method ReadExtentBlocks(e: Ext, first: nat, count: nat, ghost content: Option<seq<Block>>)
      returns (st: Status, blocks: seq<Block>)
      requires bs > 0 && Mounted() && e.ls <= first && first + count <= End(e)
      requires content.Some? ==> AllSized(content.value, bs) && ExtShows(device, codec, e, content.value)
      ensures st == Ok || st == Io
      ensures st == Io <==> !Readable(device, codec, e, first + count)
      ensures st == Ok ==> |blocks| == count && AllSized(blocks, bs)
      ensures st == Ok ==> Gives(device, codec, bs, e, first - e.ls, blocks)
      ensures content.Some? ==>
        st == Ok && first + count <= |content.value| && blocks == content.value[first..first + count]
    {
      hide Join, Split, Unpacked, UnpacksTo, SliceOrZero, Lossless, Pow256;
      blocks := [];
      var off := first - e.ls;
      if Plain(e) {
        if e.ps + off + count > |device| {
          return Io, [];
        }
        blocks := ReadDevice(e.ps + off, count);
        if content.Some? {
          PartShows(device, codec, e, content.value, off, count);
        }
        return Ok, blocks;
      }
      st, blocks := ReadPackedBlocks(e, off, count, content);
    }

    /** The same on a compressed extent: all of it is unpacked, and what lies past the data is zero. */
    method ReadPackedBlocks(e: Ext, off: nat, count: nat, ghost content: Option<seq<Block>>)
      returns (st: Status, blocks: seq<Block>)
      requires bs > 0 && Mounted() && !Plain(e) && off + count <= e.lc
      requires content.Some? ==> AllSized(content.value, bs) && ExtShows(device, codec, e, content.value)
      ensures st == Ok || st == Io
      ensures st == Io <==> !Unpacks(device, codec, e)
      ensures st == Ok ==> |blocks| == count && AllSized(blocks, bs)
      ensures st == Ok ==> Gives(device, codec, bs, e, off, blocks)
      ensures content.Some? ==>
        && st == Ok && e.ls + off + count <= |content.value|
        && blocks == content.value[e.ls + off..e.ls + off + count]
    {
      hide Join, Split, Unpacked, Lossless, Pow256, SliceOrZero, AllSized;
      blocks := [];
      if content.Some? {
        UnpackedSlice(device, codec, e, content.value, bs, off, count);
      }
      if e.ps + e.pc > |device| {
        return Io, [];
      }
      var decomp := Unpacked(codec, Join(device[e.ps..e.ps + e.pc]));
      if !decomp.Data? {
        return Io, [];
      }
      assert UnpacksTo(device, codec, e.ps, e.pc, decomp.bytes);
      SliceSize(decomp.bytes, off * bs, count, bs);
      return Ok, Split(SliceOrZero(decomp.bytes, off * bs, count * bs), bs);
    }

    /** Reads what the extents hold of blocks [gs, ge) into a zero-filled group buffer. */
    method AssembleGroup(list: seq<Ext>, gs: nat, ge: nat, ghost content: Option<seq<Block>>)
      returns (st: Status, group: seq<Block>)
      requires Mounted() && gs <= ge
      requires content.Some? ==>
        ge <= |content.value| && AllSized(content.value, bs) && Shows(device, codec, list, content.value)
      ensures st == Ok || st == Io
      ensures st == Io <==> !GroupReadable(device, codec, list, gs, ge)
      ensures st == Ok ==> |group| == ge - gs && AllSized(group, bs)
      ensures content.Some? ==> st == Ok && group == ListView(list, content.value, gs, ge, bs)
    {
      hide ExtShows, Lossless, Pow256, ListView, Has, OverlapReadable;
      group := seq(ge - gs, _ => Zeros(bs));
      var ei := 0;
      if content.Some? {
        EmptyView(content.value, gs, ge, bs);
      }
      assert list[..0] == [];
      while ei < |list|
        invariant 0 <= ei <= |list| && |group| == ge - gs && AllSized(group, bs)
        invariant forall i | 0 <= i < ei :: OverlapReadable(device, codec, list[i], gs, ge)
        invariant content.Some? ==> group == ListView(list[..ei], content.value, gs, ge, bs)
      {
        st, group := AddOverlap(list[ei], list[..ei], gs, ge, group, content);
        if st != Ok {
          return;
        }
        assert list[..ei + 1] == list[..ei] + [list[ei]];
        ei := ei + 1;
      }
      assert list[..ei] == list;
      st := Ok;
    }

    /** Reads the overlap of one extent with the group into the buffer. */
    method AddOverlap(e: Ext, ghost before: seq<Ext>, gs: nat, ge: nat, group0: seq<Block>,
                      ghost content: Option<seq<Block>>)
      returns (st: Status, group: seq<Block>)
      requires Mounted() && gs <= ge && |group0| == ge - gs && AllSized(group0, bs)
      requires content.Some? ==>
        ge <= |content.value| && AllSized(content.value, bs) && ExtShows(device, codec, e, content.value)
      requires content.Some? ==> group0 == ListView(before, content.value, gs, ge, bs)
      ensures st == Ok || st == Io
      ensures st == Io <==> !OverlapReadable(device, codec, e, gs, ge)
      ensures st == Ok ==> |group| == ge - gs && AllSized(group, bs)
      ensures content.Some? ==> st == Ok && group == ListView(before + [e], content.value, gs, ge, bs)
    {
      hide ExtShows, Lossless, Pow256, ListView, Readable, Unpacked, UnpacksTo;
      group := group0;
      if End(e) <= gs || e.ls >= ge {
        if content.Some? {
          ViewSkipped(before, e, content.value, gs, ge, bs);
        }
        return Ok, group;
      }
      var os, oe := OverlapStart(e, gs), OverlapEnd(e, ge);
      var blocks;
      st, blocks := ReadExtentBlocks(e, os, oe - os, content);
      if st != Ok {
        return;
      }
      if content.Some? {
        ViewExtended(before, e, content.value, group, blocks, gs, ge, bs);
      }
      group := group[..os - gs] + blocks + group[oe - gs..];
    }

    /** Cuts blocks [gs, ge) out of one extent, freeing their physical blocks: the extent lies outside the
        group, within it, straddles its left or right end, contains it, or is a compressed extent that
        straddles it and is given up entirely. */
    method CutExtent(e: Ext, gs: nat, ge: nat, ghost m: multiset<Lba>) returns (pieces: seq<Ext>)
      requires Mounted() && gs < ge && ExtOk(e)
      requires Balanced(used, refs, reserved, m + multiset(Range(CutStart(e, gs, ge), CutCount(e, gs, ge))))
      modifies this`used, this`refs
      ensures Mounted() && pieces == CutExt(e, gs, ge) && Balanced(used, refs, reserved, m)
    {
      hide Balanced, Range, Lossless, Pow256;
      if End(e) <= gs || e.ls >= ge {
        pieces := [e];
        PlusNone(m, CutStart(e, gs, ge));
      } else if e.ls >= gs && End(e) <= ge {
        FreeRange(e.ps, e.pc, m);
        pieces := [];
      } else if e.ls < gs && End(e) <= ge && Plain(e) {
        var keep := gs - e.ls;
        FreeRange(e.ps + keep, e.pc - keep, m);
        pieces := [e.(lc := keep, pc := keep)];
      } else if e.ls >= gs && End(e) > ge && Plain(e) {
        var skip := ge - e.ls;
        FreeRange(e.ps, skip, m);
        pieces := [Ext(e.ls + skip, e.lc - skip, e.ps + skip, e.pc - skip)];
      } else if e.ls < gs && End(e) > ge && Plain(e) {
        var left := gs - e.ls;
        FreeRange(e.ps + left, ge - gs, m);
        pieces := [e.(lc := left, pc := left), Ext(ge, End(e) - ge, e.ps + (ge - e.ls), End(e) - ge)];
      } else {
        FreeRange(e.ps, e.pc, m);
        pieces := [];
      }
    }

    /** Cuts blocks [gs, ge) out of the list in place. */
    method CutGroup(list: seq<Ext>, gs: nat, ge: nat, ghost m: multiset<Lba>) returns (cur: seq<Ext>)
      requires Mounted() && gs < ge && AllOk(list)
      requires Balanced(used, refs, reserved, m + Owned(list))
      modifies this`used, this`refs
      ensures Mounted() && cur == CutAll(list, gs, ge) && Balanced(used, refs, reserved, m + Owned(cur))
    {
      hide Balanced, Owned, Range, CutAll, CutExt, CutStart, CutCount, Lossless, Pow256;
      cur := list;
      var ei := 0;
      ghost var k := 0;
      CutNone(gs, ge);
      assert list[..0] == [];
      while ei < |cur|
        invariant 0 <= k <= |list| && Mounted() && cur == CutAll(list[..k], gs, ge) + list[k..]
        invariant ei == |CutAll(list[..k], gs, ge)|
        invariant Balanced(used, refs, reserved, m + Owned(cur))
        decreases |list| - k
      {
        CutStep(list, k, gs, ge, cur, m);
        ghost var next := cur[..ei] + CutExt(cur[ei], gs, ge) + cur[ei + 1..];
        var pieces := CutExtent(cur[ei], gs, ge, m + Owned(next));
        cur := cur[..ei] + pieces + cur[ei + 1..];
        ei := ei + |pieces|;
        k := k + 1;
      }
      assert list[..k] == list;
    }

    /** Coalesces adjacent uncompressed extents. */
    static method CoalesceList(list: seq<Ext>) returns (merged: seq<Ext>)
      ensures merged == Coalesce(list)
    {
      merged := [];
      var i := 0;
      assert Coalesce(list[..0]) == [];
      hide Coalesce, Push;
      while i < |list|
        invariant 0 <= i <= |list| && merged == Coalesce(list[..i])
      {
        CoalesceStep(list, i);
        merged := CoalesceOne(merged, list[i]);
        i := i + 1;
      }
      assert list[..i] == list;
    }

    static method CoalesceOne(merged: seq<Ext>, e: Ext) returns (merged': seq<Ext>)
      ensures merged' == Push(merged, e)
    {
      if merged != [] && Mergeable(merged[|merged| - 1], e) {
        var prev := merged[|merged| - 1];
        merged' := merged[|merged| - 1 := prev.(lc := prev.lc + e.lc, pc := prev.pc + e.pc)];
      } else {
        merged' := merged + [e];
      }
    }

    /** First eight extent runs go to inline slots. */
    static method FillSlots(merged: seq<Ext>) returns (slots: seq<Run>)
      ensures slots == StoredSlots(merged)
    {
      slots := seq(INLINE, _ => UNUSED);
      var i := 0;
      while i < |merged| && i < INLINE
        invariant 0 <= i <= INLINE && i <= |merged| && |slots| == INLINE
        invariant forall j | 0 <= j < i :: slots[j] == RunOf(merged[j])
        invariant forall j | i <= j < INLINE :: slots[j] == UNUSED
      {
        slots := slots[i := Run(merged[i].ps, merged[i].pc, merged[i].lc)];
        i := i + 1;
      }
    }

    /** Remaining extents go to the overflow tree, which was cleared of the inode before. */
    static method FillOverflow(merged: seq<Ext>) returns (over: seq<Ext>)
      requires AllOk(merged) && Sorted(merged)
      ensures over == if |merged| > INLINE then merged[INLINE..] else []
    {
      over := [];
      var i := INLINE;
      while i < |merged|
        invariant INLINE <= i && (i <= |merged| || i == INLINE)
        invariant over == if i <= |merged| then merged[INLINE..i] else []
      {
        forall j | 0 <= j < |over| ensures over[j].ls < merged[i].ls {
          assert over[j] == merged[INLINE + j] && ExtOk(merged[INLINE + j]);
        }
        OverAppend(over, merged[i]);
        over := OverInsert(over, merged[i]);
        i := i + 1;
      }
    }

    /** write_extent_list: coalesces the list, then fills the inline slots and the overflow tree. */
    method WriteExtentList(ino: nat, list: seq<Ext>)
      requires ino < |files| && Sorted(list) && AllOk(list)
      modifies this`files
      ensures |files| == |old(files)| && files == old(files)[ino := files[ino]]
      ensures files[ino].size == old(files)[ino].size && Stores(files[ino], Coalesce(list))
    {
      CoalesceSorted(list);
      var merged := CoalesceList(list);
      var slots := FillSlots(merged);
      var over := FillOverflow(merged);
      files := files[ino := files[ino].(slots := slots, over := over)];
    }

    /** One round of a read-modify-write: assemble the group, overlay the new bytes, cut the old extents,
        store the group and insert its extent in order. */
    method WriteGroup(list: seq<Ext>, g: nat, total: nat, offset: nat, buf: Bytes, algo: Algo,
                      ghost m: multiset<Lba>, ghost list0: seq<Ext>, ghost news: seq<Ext>, ghost t: Touched,
                      ghost x: Option<seq<Block>>)
      returns (st: Status, next: seq<Ext>, ghost news': seq<Ext>)
      requires Mounted() && AllOk(list) && Sorted(list) && Within(list, total) && g * GROUP < total
      requires Balanced(used, refs, reserved, m + Owned(list))
      requires AllOk(list0) && Sorted(list0) && InRewrite(list0, list, news, t, g) && GroupShape(news, t, g)
      requires g <= t.last && t.last * GROUP < t.blocks == total
      requires x.Some? ==> AllPacked(codec, algo, bs, news, Overwritten(list0, x.value, t, bs, offset, buf))
      requires x.Some? ==>
        |x.value| == total && AllSized(x.value, bs) && ZeroOutside(list0, x.value, bs)
      requires x.Some? ==> var z := Overwritten(list0, x.value, t, bs, offset, buf);
        |z| == total && AllSized(z, bs) && Shows(device, codec, list, Mixed(x.value, z, g * GROUP))
      modifies this`used, this`nextFree, this`refs, this`device
      ensures Outcome(st, x.Some?)
      ensures st == Ok ==> Mounted() && AllOk(next) && Sorted(next) && Within(next, total)
      ensures st == Ok ==> Balanced(used, refs, reserved, m + Owned(next)) && SameOn(old(device), device, m)
      ensures st == Ok ==> InRewrite(list0, next, news', t, g + 1) && GroupShape(news', t, g + 1)
      ensures st == Io <==> !GroupReadable(old(device), codec, list, g * GROUP, GroupEnd(g, total))
      ensures st == Ok ==> SameOn(old(device), device, Owned(KeepRight(list, GroupEnd(g, total))))
      ensures st == Ok && x.Some? ==> AllPacked(codec, algo, bs, news', Overwritten(list0, x.value, t, bs, offset, buf))
      ensures st == Ok && x.Some? ==>
        Shows(device, codec, next, Mixed(x.value, Overwritten(list0, x.value, t, bs, offset, buf), GroupEnd(g, total)))
    {
      hide Balanced, Owned, Lossless, Pow256, Shows, Covers, OverlayBlocks, Sorted, AllOk, Within, AllSized, Mixed,
           SameOn,
           Aligned, ZeroOutside, InRewrite, Overwritten, KeepLeft, KeepRight, GroupShape, AllPacked, PackedAs,
           GroupReadable;
      next, news' := list, news;
      var gs, ge := g * GROUP, GroupEnd(g, total);
      ghost var xz := if x.Some? then Some((x.value, Overwritten(list0, x.value, t, bs, offset, buf))) else None;
      var blocks;
      st, blocks := NewGroup(list, gs, ge, offset, buf, list0, news, t, g, x);
      if st != Ok {
        return;
      }
      ghost var e;
      st, next, e := ReplaceGroup(list, gs, ge, total, blocks, algo, m, xz);
      if st == Ok {
        RewriteStep(list0, list, news, t, g, e);
        ShapeNext(news, t, g, e);
        if x.Some? {
          PackedNext(codec, algo, bs, news, e, xz.value.1);
        }
        news' := news + [e];
      }
    }

    /** The new content of a group: what is still there of it with the new bytes laid over. */
    method NewGroup(list: seq<Ext>, gs: nat, ge: nat, offset: nat, buf: Bytes, ghost list0: seq<Ext>,
                    ghost news: seq<Ext>,
                    ghost t: Touched, ghost g: nat, ghost x: Option<seq<Block>>)
      returns (st: Status, blocks: seq<Block>)
      requires Mounted() && gs <= ge && gs == g * GROUP && ge == GroupEnd(g, t.blocks) && g <= t.last
      requires t.last * GROUP < t.blocks
      requires AllOk(list0) && Sorted(list0) && InRewrite(list0, list, news, t, g)
      requires x.Some? ==> |x.value| == t.blocks && AllSized(x.value, bs)
      requires x.Some? ==> ZeroOutside(list0, x.value, bs)
      requires x.Some? ==> var z := Overwritten(list0, x.value, t, bs, offset, buf);
        |z| == t.blocks && AllSized(z, bs) && Shows(device, codec, list, Mixed(x.value, z, gs))
      ensures st == Ok || (st == Io && x.None?)
      ensures st == Io <==> !GroupReadable(device, codec, list, gs, ge)
      ensures st == Ok ==> |blocks| == ge - gs && AllSized(blocks, bs)
      ensures st == Ok && x.Some? ==> blocks == Overwritten(list0, x.value, t, bs, offset, buf)[gs..ge]
    {
      hide Lossless, Pow256, Shows, Covers, OverlayBlocks, Join, Split, Mixed, Overlay, ZeroOutside, InRewrite,
           Remaining, ListView, GroupReadable;
      blocks := [];
      ghost var content: Option<seq<Block>> := None;
      if x.Some? {
        ghost var r := Remaining(list0, x.value, t, bs);
        ghost var z := OverlayBlocks(r, 0, offset, buf);
        RemainingSized(list0, x.value, t, bs);
        OverlaidGroup(r, bs, gs, ge, offset, buf);
        MixedSized(x.value, z, gs, bs);
        GroupSeen(list0, list, news, t, g, x.value, z, bs);
        content := Some(Mixed(x.value, z, gs));
      }
      var group;
      st, group := AssembleGroup(list, gs, ge, content);
      if st != Ok {
        return;
      }
      blocks := OverlayGroup(group, gs, offset, buf);
    }

    /** Cuts the group out of the list, stores its new blocks and inserts their extent in order. */
    method ReplaceGroup(list: seq<Ext>, gs: nat, ge: nat, total: nat, blocks: seq<Block>, algo: Algo,
                        ghost m: multiset<Lba>, ghost xz: Option<(seq<Block>, seq<Block>)>)
      returns (st: Status, next: seq<Ext>, ghost e: Ext)
      requires Mounted() && AllOk(list) && Sorted(list) && Within(list, total) && gs < ge <= total && ge - gs <= GROUP
      requires |blocks| == ge - gs && AllSized(blocks, bs) && Balanced(used, refs, reserved, m + Owned(list))
      requires xz.Some? ==> var (x, z) := xz.value;
        |x| == |z| == total && blocks == z[gs..ge] && Shows(device, codec, list, Mixed(x, z, gs))
      modifies this`used, this`nextFree, this`refs, this`device
      ensures Outcome(st, true)
      ensures st == Ok ==>
        ExtOk(e) && e.ls == gs && End(e) == ge && next == KeepLeft(list, gs) + [e] + KeepRight(list, ge)
      ensures st == Ok ==> Mounted() && AllOk(next) && Sorted(next) && Within(next, total)
      ensures st == Ok ==> Balanced(used, refs, reserved, m + Owned(next)) && SameOn(old(device), device, m)
      ensures st == Ok ==> SameOn(old(device), device, Owned(KeepRight(list, ge)))
      ensures st != Io
      ensures st == Ok && xz.Some? ==> Shows(device, codec, next, Mixed(xz.value.0, xz.value.1, ge))
      ensures st == Ok && xz.Some? ==> PackedAs(codec, algo, bs, e, xz.value.1)
    {
      hide Balanced, Owned, Range, CutAll, Lossless, Pow256, Shows, ExtShows, KeepLeft, KeepRight, Sorted, Within,
           AllOk,
           Mixed, SameOn, InsertPoint;
      next, e := list, Ext(gs, ge - gs, 0, ge - gs);
      ghost var dev0 := device;
      var cur := CutGroup(list, gs, ge, m);
      var ps, pc;
      st, ps, pc := StoreGroup(blocks, algo, m + Owned(cur));
      if st != Ok {
        return;
      }
      e := Ext(gs, ge - gs, ps, pc);
      ghost var k;
      next, k := InsertExtent(cur, Ext(gs, ge - gs, ps, pc));
      InsertedBetween(list, e, total, cur, k, next);
      RegroupOwned(m, Owned(cur), multiset(Range(ps, pc)), Owned(next));
      SameOnParts(dev0, device, m, Owned(cur));
      RightKept(dev0, device, list, gs, ge);
      if xz.Some? {
        GroupWritten(dev0, device, codec, list, e, xz.value.0, xz.value.1, blocks);
      }
    }

    /** Overlays the new bytes on the group buffer. */
    method OverlayGroup(group: seq<Block>, gs: nat, offset: nat, buf: Bytes) returns (blocks: seq<Block>)
      requires Mounted() && AllSized(group, bs)
      ensures |blocks| == |group| && AllSized(blocks, bs)
      ensures blocks == Split(Overlay(Join(group), gs * bs, offset, buf), bs)
    {
      var data := Join(group);
      JoinLength(group, bs);
      var groupStart := gs * bs;
      var groupEnd := groupStart + |data|;
      var writeStart := if offset > groupStart then offset else groupStart;
      var writeEnd := if offset + |buf| < groupEnd then offset + |buf| else groupEnd;
      CopyIsOverlay(data, groupStart, offset, buf, writeStart, writeEnd);
      if writeEnd > writeStart {
        data := CopyInto(data, writeStart - groupStart, buf, writeStart - offset, writeEnd - writeStart);
      }
      SplitSized(data, bs);
      DivModUnique(|data|, bs, |group|, 0);
      blocks := Split(data, bs);
    }

    /** Inserts an extent before the first one that does not start left of it. */
    method InsertExtent(cur: seq<Ext>, e: Ext) returns (next: seq<Ext>, ghost k: nat)
      ensures InsertPoint(cur, k, e.ls) && next == cur[..k] + [e] + cur[k..]
    {
      var ins := 0;
      while ins < |cur| && cur[ins].ls < e.ls
        invariant 0 <= ins <= |cur| && forall i | 0 <= i < ins :: cur[i].ls < e.ls
      {
        ins := ins + 1;
      }
      next, k := cur[..ins] + [e] + cur[ins..], ins;
    }

    /** Rebuilds the touched groups one after another. */
    method RewriteGroups(list0: seq<Ext>, first: nat, last: nat, total: nat, offset: nat, buf: Bytes, algo: Algo,
                         ghost m: multiset<Lba>, ghost t: Touched, ghost size: nat, ghost x: Option<seq<Block>>)
      returns (st: Status, list: seq<Ext>, ghost news: seq<Ext>)
      requires Mounted() && AllOk(list0) && Sorted(list0) && Within(list0, total) && |buf| > 0
      requires Balanced(used, refs, reserved, m + Owned(list0))
      requires t.blocks == total && t.first == first && t.last == last && TouchedOk(t, bs, offset, |buf|, size)
      requires x.Some? ==>
        |x.value| == total && AllSized(x.value, bs) && ZeroOutside(list0, x.value, bs)
      requires x.Some? ==> Shows(device, codec, list0, x.value)
      modifies this`used, this`nextFree, this`refs, this`device
      ensures Outcome(st, x.Some?)
      ensures st == Ok ==> Mounted() && AllOk(list) && Sorted(list) && Within(list, total)
      ensures st == Ok ==> Balanced(used, refs, reserved, m + Owned(list)) && SameOn(old(device), device, m)
      ensures st == Ok ==> InRewrite(list0, list, news, t, last + 1) && GroupShape(news, t, last + 1)
      ensures st == Ok ==> AllReadable(old(device), codec, list0, t)
      ensures st == Io ==> !AllReadable(old(device), codec, list0, t)
      ensures st == Ok && x.Some? ==> AllPacked(codec, algo, bs, news, Overwritten(list0, x.value, t, bs, offset, buf))
      ensures st == Ok && x.Some? ==> Shows(device, codec, list, Overwritten(list0, x.value, t, bs, offset, buf))
    {
      hide Balanced, Owned, Lossless, Pow256, Shows, Covers, OverlayBlocks, Aligned, Sorted, AllOk, Within, SameOn,
           Mixed, ZeroOutside,
           AllSized, InRewrite, Overwritten, GroupShape, PackedAs, GroupReadable, Later;
      list, news, st := list0, [], Ok;
      var g := first;
      SameOnRefl(device, m);
      SameOnRefl(device, Owned(Later(list0, t, first)));
      RewriteStarts(list0, t);
      NoGroups(t);
      if x.Some? {
        OverwrittenEnds(list0, x.value, t, bs, offset, buf, size);
      }
      while g <= last
        invariant first <= g <= last + 1 && st == Ok && Mounted()
        invariant AllOk(list) && Sorted(list) && Within(list, total) && InRewrite(list0, list, news, t, g)
        invariant GroupShape(news, t, g)
        invariant forall k | first <= k < g ::
          GroupReadable(old(device), codec, Later(list0, t, k), k * GROUP, GroupEnd(k, total))
        invariant g <= last ==> SameOn(old(device), device, Owned(Later(list0, t, g)))
        invariant x.Some? ==> AllPacked(codec, algo, bs, news, Overwritten(list0, x.value, t, bs, offset, buf))
        invariant Balanced(used, refs, reserved, m + Owned(list)) && SameOn(old(device), device, m)
        invariant x.Some? ==>
          Shows(device, codec, list, Mixed(x.value, Overwritten(list0, x.value, t, bs, offset, buf), Boundary(g, t)))
        decreases last + 1 - g
      {
        ghost var dev, list1, news1 := device, list, news;
        StillReadable(old(device), device, codec, list0, list, news, t, g);
        st, list, news := WriteGroup(list, g, total, offset, buf, algo, m, list0, news, t, x);
        if st != Ok {
          return;
        }
        if g < last {
          LaterKept(old(device), dev, device, list0, list1, news1, t, g);
        }
        SameOnTrans(old(device), dev, device, m);
        assert Boundary(g + 1, t) == GroupEnd(g, total);
        g := g + 1;
      }
    }

    /** The file has no holes, its compressed extents are whole groups, and it reads as the given blocks. */
    ghost predicate HasContent(ino: nat, content: seq<Block>)
      requires bs > 0 && ino < |files|
      reads this
    {
      Holds(device, codec, bs, files[ino], content) && Aligned(Collect(files[ino]))
    }

    /** The read-modify-write path: every touched group is rebuilt, then the whole list is stored, on any file whose
        extents show something, with holes or not. A gapless file comes out gapless exactly when the touched groups
        cut no compressed extent at their ends, and then holds the new bytes over what remains of its content. */
    method RewriteFile(ino: nat, offset: nat, buf: Bytes, algo: Algo, ghost content: Option<seq<Block>>)
      returns (st: Status)
      requires Valid() && ino < |files| && |buf| > 0
      requires content.Some? ==> Presents(device, codec, bs, files[ino], content.value)
      modifies this
      ensures Outcome(st, content.Some?)
      ensures st == Ok ==>
        Valid() && OnlyFile(old(files), files, ino) && SameOn(old(device), device, Others(old(files), ino))
      ensures st == Ok ==> files[ino].size == NewSize(old(files)[ino].size, offset, |buf|)
      ensures st == Ok && content.Some? && Holding(old(device), codec, bs, old(files)[ino], content, offset) ==>
        var t := TouchedBy(bs, offset, |buf|, old(files)[ino].size);
        && (Covers(Collect(files[ino]), 0, t.blocks) <==> CutsNothing(Collect(old(files)[ino]), t))
        && (CutsNothing(Collect(old(files)[ino]), t) ==> Holds(device, codec, bs, files[ino],
              Overwritten(Collect(old(files)[ino]), Extended(content.value, t.blocks, bs), t, bs, offset, buf)))
        && (Aligned(Collect(old(files)[ino])) ==> Aligned(Collect(files[ino])))
      ensures st == Ok && content.Some? && !PureAppend(old(files)[ino].size, offset, bs) ==> exists news ::
        WroteGroups(codec, algo, bs, old(files)[ino], files[ino], content.value, offset, buf, news)
        && ShowsRewritten(device, codec, bs, old(files)[ino], content.value, offset, buf, news)
      ensures st == Ok ==> AllReadable(old(device), codec, Collect(old(files)[ino]),
                                       TouchedBy(bs, offset, |buf|, old(files)[ino].size))
      ensures st == Io ==> !AllReadable(old(device), codec, Collect(old(files)[ino]),
                                        TouchedBy(bs, offset, |buf|, old(files)[ino].size))
    {
      hide Balanced, Owned, Total, Lossless, Pow256, Shows, Covers, OverlayBlocks, Aligned, Sorted, AllOk, Within,
           SameOn, LayoutOk, Collect, InRewrite, TouchedOk, Stores, Coalesce, Others, AllSized, Extended, ZeroFrom,
           Overwritten, CutsNothing, GroupShape, AllPacked, PureAppend, WroteGroups, ShowsRewritten, ZeroOutside,
           Presents, Holds, AllReadable;
      ghost var f0, m, files0 := files[ino], Others(files, ino), files;
      ghost var t := TouchedBy(bs, offset, |buf|, f0.size);
      TouchedGroups(bs, offset, |buf|, f0.size);
      TotalAround(files, ino);
      assert FileOk(files[ino], bs);
      var size := NewSize(files[ino].size, offset, |buf|);
      var total := CeilDiv(size, bs);
      var list := Collect(files[ino]);
      WithinMore(list, t.oldBlocks, total) by { assert t.oldBlocks <= total by { CeilDivMonotone(f0.size, size, bs); } }
      ghost var x: Option<seq<Block>> := None;
      if content.Some? {
        x := Some(Extended(content.value, total, bs));
        StartRewrite(device, codec, bs, f0, content.value, total);
      }
      ghost var news;
      st, list, news := RewriteGroups(list, offset / bs / GROUP, (offset + |buf| - 1) / bs / GROUP, total, offset,
                                      buf, algo, m, t, f0.size, x);
      if st != Ok {
        return;
      }
      files := files[ino := files[ino].(size := size)];
      WriteExtentList(ino, list);
      StoredFile(files0, files, ino, list, bs);
      if Holding(old(device), codec, bs, f0, content, offset) {
        HeldParts(old(device), codec, bs, f0, content.value);
        StoredRewrite(device, codec, bs, f0, files[ino], list, news, content.value, t, offset, buf);
      }
      if content.Some? && !PureAppend(f0.size, offset, bs) {
        RewroteGroups(device, codec, algo, bs, f0, files[ino], list, news, content.value, t, offset, buf);
      }
    }

    /** Counts the inline slots in use. */
    static method CountInline(slots: seq<Run>, ghost k0: nat) returns (k: nat)
      requires PrefixUsed(slots, k0)
      ensures k == k0
    {
      k := 0;
      for i := 0 to |slots|
        invariant k == if i <= k0 then i else k0
      {
        if slots[i].blocks > 0 || slots[i].logical > 0 {
          k := k + 1;
        }
      }
    }

    /** The content of an appended group: the new bytes over zeros. */
    method TailGroup(gs: nat, ge: nat, offset: nat, buf: Bytes, ghost total: nat) returns (blocks: seq<Block>)
      requires Mounted() && gs <= ge <= total
      ensures |blocks| == ge - gs && AllSized(blocks, bs)
      ensures ge <= |Fresh(total, bs, offset, buf)| && blocks == Fresh(total, bs, offset, buf)[gs..ge]
    {
      hide Lossless, Pow256, OverlayBlocks, Join, Split, Overlay;
      BlankSlice(total, bs, gs, ge);
      OverlaidGroup(Blank(total, bs), bs, gs, ge, offset, buf);
      var group := Blank(ge - gs, bs);
      blocks := OverlayGroup(group, gs, offset, buf);
    }

    /** Writes one appended group and adds its extent to the file. */
    method AppendGroup(f: File, inlineUsed: nat, g: nat, total: nat, offset: nat, buf: Bytes, algo: Algo,
                       ghost w: multiset<Lba>)
      returns (st: Status, f': File, inlineUsed': nat, ghost e: Ext)
      requires Mounted() && g * GROUP < total && |f.slots| == INLINE && inlineUsed <= INLINE
      requires Balanced(used, refs, reserved, w)
      modifies this`used, this`nextFree, this`device
      ensures Outcome(st, true)
      ensures st == Ok ==> Mounted() && ExtOk(e) && e.ls == g * GROUP && End(e) == GroupEnd(g, total)
      ensures st == Ok ==>
        f' == Appended(f, inlineUsed, e) && inlineUsed' == if inlineUsed < INLINE then inlineUsed + 1 else inlineUsed
      ensures st == Ok ==>
        Balanced(used, refs, reserved, w + multiset(Range(e.ps, e.pc))) && SameOn(old(device), device, w)
      ensures st == Ok ==>
        ExtShows(device, codec, e, Fresh(total, bs, offset, buf))
        && PackedAs(codec, algo, bs, e, Fresh(total, bs, offset, buf))
    {
      hide Balanced, Range, Lossless, Pow256, ExtShows, SameOn, Fresh;
      f', inlineUsed' := f, inlineUsed;
      var gs, ge := g * GROUP, GroupEnd(g, total);
      e := Ext(gs, ge - gs, 0, ge - gs);
      var blocks := TailGroup(gs, ge, offset, buf, total);
      var ps, pc;
      st, ps, pc := StoreGroup(blocks, algo, w);
      if st != Ok {
        return;
      }
      e := Ext(gs, ge - gs, ps, pc);
      if inlineUsed < INLINE {
        f' := f.(slots := f.slots[inlineUsed := Run(ps, pc, ge - gs)]);
        inlineUsed' := inlineUsed + 1;
      } else {
        f' := f.(over := OverInsert(f.over, Ext(gs, ge - gs, ps, pc)));
      }
      GroupAt(device, codec, blocks, ps, pc, Fresh(total, bs, offset, buf), gs);
    }

    /** Everything that references need to stay countable: each file's layout, extents and overflow keys are in
        order, and refcounts equal references. */
    ghost predicate Countable()
      reads this
    {
      && Mounted()
      && (forall i | 0 <= i < |files| :: LooseFile(files[i]))
      && Balanced(used, refs, reserved, Total(files))
    }

    lemma {:induction false} ValidIsCountable()
      requires Valid()
      ensures Countable()
    {
      forall i | 0 <= i < |files| ensures LooseFile(files[i]) {
        assert FileOk(files[i], bs);
        SortedIsLoose(files[i]);
      }
    }

    /** write_file_data_append: new groups are written behind the existing ones and their extents added
        one by one, without rebuilding the list. References stay countable exactly when no overflow record of
        the file starts where an appended group does. */
    method AppendFile(ino: nat, offset: nat, buf: Bytes, algo: Algo, ghost content: Option<seq<Block>>)
      returns (st: Status)
      requires Countable() && ino < |files| && |buf| > 0 && PureAppend(files[ino].size, offset, bs)
      requires content.Some? ==>
        Valid() && Holds(device, codec, bs, files[ino], content.value) && offset <= files[ino].size
      modifies this
      ensures Outcome(st, true)
      ensures st == Ok ==> OnlyFile(old(files), files, ino) && SameOn(old(device), device, Others(old(files), ino))
      ensures st == Ok ==> files[ino].size == NewSize(old(files)[ino].size, offset, |buf|)
      ensures st == Ok ==> Mounted() && forall i | 0 <= i < |files| :: LooseFile(files[i])
      ensures st == Ok ==> (Balanced(used, refs, reserved, Total(files))
        <==> !GroupClash(old(files)[ino].over, TouchedBy(bs, offset, |buf|, old(files)[ino].size)))
      ensures st == Ok && old(Valid()) ==> Valid()
      ensures st == Ok && content.Some? ==>
        Holds(device, codec, bs, files[ino], Written(content.value, CeilDiv(files[ino].size, bs), bs, offset, buf))
      ensures st == Ok && content.Some? && Aligned(Collect(old(files)[ino])) ==> Aligned(Collect(files[ino]))
      ensures st == Ok && content.Some? ==> exists news ::
        WroteGroups(codec, algo, bs, old(files)[ino], files[ino], content.value, offset, buf, news)
      ensures st == Ok ==> exists news ::
        AppendedGroups(device, codec, algo, bs, old(files)[ino], files[ino], offset, buf, news)
    {
      hide Balanced, Owned, Total, Lossless, Pow256, Shows, Covers, OverlayBlocks, Aligned, Sorted, AllOk, Within,
           SameOn, LayoutOk, Collect, TouchedOk, Others, AllSized, PureAppend, AppendAll, KeysAscend, GroupClash,
           AllPacked, GroupShape, Fresh, Extended, ZeroFrom, AppendedGroups, WroteGroups, PrefixUsed;
      ghost var f0, m, files0, valid := files[ino], Others(files, ino), files, Valid();
      ghost var t := TouchedBy(bs, offset, |buf|, f0.size);
      TouchedGroups(bs, offset, |buf|, f0.size);
      TotalAround(files, ino);
      assert LooseFile(files[ino]);
      var size := NewSize(files[ino].size, offset, |buf|);
      var total := CeilDiv(size, bs);
      var f := files[ino].(size := size);
      SizeOnly(f0, size);
      SlotsOf(f);
      ghost var k0 :| 0 <= k0 <= INLINE && PrefixUsed(f.slots, k0);
      var inlineUsed := CountInline(f.slots, k0);
      ghost var news;
      st, f, news := AppendGroups(f, inlineUsed, offset / bs / GROUP, (offset + |buf| - 1) / bs / GROUP, total, offset,
                                  buf, algo, m + Owned(Collect(f)), t);
      if st != Ok {
        return;
      }
      files := files[ino := f];
      SameOnParts(old(device), device, m, Owned(Collect(f0)));
      AppendCounts(files0, files, ino, f0.(size := size), inlineUsed, news, t, used, refs, reserved);
      if valid {
        assert FileOk(f0, bs);
        BeginAppend(f0, t, bs, offset, |buf|);
        AppendStaysOrdered(files0, files, ino, f0.(size := size), inlineUsed, news, t, bs, offset, |buf|);
      }
      GroupsAppended(device, codec, algo, bs, f0, f, inlineUsed, news, t, offset, buf);
      if content.Some? {
        assert FileOk(f0, bs);
        BeginAppend(f0, t, bs, offset, |buf|);
        AppendHolds(old(device), device, codec, algo, bs, f0, f, inlineUsed, news, content.value, t, offset, buf);
      }
    }

    /** Appends the touched groups one after another. */
    method AppendGroups(f0: File, inlineUsed0: nat, first: nat, last: nat, total: nat, offset: nat, buf: Bytes,
                        algo: Algo, ghost w: multiset<Lba>, ghost t: Touched)
      returns (st: Status, f: File, ghost news: seq<Ext>)
      requires Mounted() && |buf| > 0 && |f0.slots| == INLINE && inlineUsed0 <= INLINE
      requires Balanced(used, refs, reserved, w)
      requires t.blocks == total && t.first == first && t.last == last && first <= last && last * GROUP < total
      modifies this`used, this`nextFree, this`device
      ensures Outcome(st, true)
      ensures st == Ok ==> Mounted() && f == AppendAll(f0, inlineUsed0, news) && GroupShape(news, t, last + 1)
      ensures st == Ok ==> Balanced(used, refs, reserved, w + Owned(news)) && SameOn(old(device), device, w)
      ensures st == Ok ==> Shows(device, codec, news, Fresh(total, bs, offset, buf))
      ensures st == Ok ==> AllPacked(codec, algo, bs, news, Fresh(total, bs, offset, buf))
    {
      hide Balanced, Owned, Lossless, Pow256, Shows, ExtShows, SameOn, AppendAll, GroupShape, Range, PackedAs, Fresh;
      f, st, news := f0, Ok, [];
      var g, inlineUsed := first, inlineUsed0;
      SameOnRefl(device, w);
      NothingAppended(f0, inlineUsed0, w, t);
      ShowsNone(device, codec, Fresh(total, bs, offset, buf));
      while g <= last
        invariant first <= g <= last + 1 && st == Ok && Mounted() && |news| == g - first
        invariant f == AppendAll(f0, inlineUsed0, news) && inlineUsed == Least(inlineUsed0 + |news|, INLINE)
        invariant GroupShape(news, t, g)
        invariant Balanced(used, refs, reserved, w + Owned(news)) && SameOn(old(device), device, w)
        invariant Shows(device, codec, news, Fresh(total, bs, offset, buf))
        invariant AllPacked(codec, algo, bs, news, Fresh(total, bs, offset, buf))
        decreases last + 1 - g
      {
        ghost var dev := device;
        ghost var e;
        st, f, inlineUsed, e := AppendGroup(f, inlineUsed, g, total, offset, buf, algo, w + Owned(news));
        if st != Ok {
          return;
        }
        AppendNext(f0, inlineUsed0, news, e);
        ShapeNext(news, t, g, e);
        AppendOwned(w, news, e);
        PackedNext(codec, algo, bs, news, e, Fresh(total, bs, offset, buf));
        SameOnParts(dev, device, w, Owned(news));
        SameOnTrans(old(device), dev, device, w);
        ShowsNext(dev, device, codec, news, e, Fresh(total, bs, offset, buf));
        news := news + [e];
        g := g + 1;
      }
    }

    /** obmafs3_write_file_data: the append path when the write starts behind all existing groups, the
        read-modify-write path otherwise. */
    method WriteFile(ino: nat, offset: nat, buf: Bytes, algo: Algo, ghost content: Option<seq<Block>>)
      returns (st: Status)
      requires Valid() && ino < |files| && |buf| > 0
      requires content.Some? ==> Presents(device, codec, bs, files[ino], content.value)
      modifies this
      ensures Outcome(st, content.Some?)
      ensures st == Ok ==>
        Valid() && OnlyFile(old(files), files, ino) && SameOn(old(device), device, Others(old(files), ino))
      ensures st == Ok ==> files[ino].size == NewSize(old(files)[ino].size, offset, |buf|)
      ensures st == Ok && Holding(old(device), codec, bs, old(files)[ino], content, offset) ==>
        (Gapless(files[ino], bs) <==> KeepsGapless(old(files)[ino], bs, offset, |buf|))
      ensures st == Ok && Holding(old(device), codec, bs, old(files)[ino], content, offset) ==>
        (Holds(device, codec, bs, files[ino], Written(content.value, CeilDiv(files[ino].size, bs), bs, offset, buf))
         <==> WriteSafe(old(files)[ino], content.value, bs, offset, |buf|))
      ensures st == Ok && Holding(old(device), codec, bs, old(files)[ino], content, offset) ==>
        Aligned(Collect(old(files)[ino])) ==>
        HasContent(ino, Written(content.value, CeilDiv(files[ino].size, bs), bs, offset, buf))
      ensures st == Ok && Holding(old(device), codec, bs, old(files)[ino], content, offset) ==> exists news ::
        WroteGroups(codec, algo, bs, old(files)[ino], files[ino], content.value, offset, buf, news)
      ensures st == Ok && content.Some? && !PureAppend(old(files)[ino].size, offset, bs) ==> exists news ::
        WroteGroups(codec, algo, bs, old(files)[ino], files[ino], content.value, offset, buf, news)
        && ShowsRewritten(device, codec, bs, old(files)[ino], content.value, offset, buf, news)
      ensures st == Ok && PureAppend(old(files)[ino].size, offset, bs) ==> exists news ::
        AppendedGroups(device, codec, algo, bs, old(files)[ino], files[ino], offset, buf, news)
      ensures st == Io ==> !PureAppend(old(files)[ino].size, offset, bs)
      ensures st == Ok && !PureAppend(old(files)[ino].size, offset, bs) ==> AllReadable(old(device), codec,
        Collect(old(files)[ino]), TouchedBy(bs, offset, |buf|, old(files)[ino].size))
      ensures st == Io ==> !AllReadable(old(device), codec, Collect(old(files)[ino]),
                                        TouchedBy(bs, offset, |buf|, old(files)[ino].size))
    {
      hide Balanced, Total, Lossless, Pow256, Shows, Covers, Aligned, Sorted, AllOk, Within, SameOn, LayoutOk, Collect,
           Others, AllSized,
           Extended, Overwritten, CutsNothing, CeilDiv, NewSize, PureAppend, Written, WriteSafe, KeepsGapless, Gapless,
           WroteGroups, AppendedGroups, ShowsRewritten, Presents, Holds, AllReadable, TouchedBy;
      ghost var f0, held := files[ino], Holding(device, codec, bs, files[ino], content, offset);
      ValidIsCountable();
      assert FileOk(f0, bs);
      var oldSize := files[ino].size;
      var oldBlocks := CeilDiv(oldSize, bs);
      var oldGroups := CeilDiv(oldBlocks, GROUP);
      var firstGroup := offset / bs / GROUP;
      if offset >= oldSize && (oldBlocks == 0 || firstGroup >= oldGroups) {
        ThisIsAppend(oldSize, offset, bs);
        st := AppendFile(ino, offset, buf, algo, if held then content else None);
        if st == Ok && held {
          AppendIsSafe(device, codec, bs, f0, files[ino], content.value, offset, buf);
        }
      } else {
        ThisIsNoAppend(oldSize, offset, bs);
        st := RewriteFile(ino, offset, buf, algo, content);
        if st == Ok && held {
          RewriteIsSafe(old(device), device, codec, bs, f0, files[ino], content.value, offset, buf);
        }
      }
      if st == Ok && held && Aligned(Collect(f0)) {
        HeldParts(old(device), codec, bs, f0, content.value);
        AlignedIsSafe(f0, content.value, bs, offset, |buf|);
      }
    }

    /** obmafs3_free_file_blocks: releases every reference of the file and empties its map. */
    method FreeFile(ino: nat)
      requires Valid() && ino < |files|
      modifies this`used, this`refs, this`files
      ensures Valid() && OnlyFile(old(files), files, ino) && Collect(files[ino]) == []
      ensures files[ino].size == old(files)[ino].size
    {
      hide Balanced, Owned, Total, Range, SlotsOwned, Others, Collect, LayoutOk, Lossless, Pow256;
      ghost var m, files0 := Others(files, ino), files;
      TotalAround(files, ino);
      assert FileOk(files[ino], bs);
      SlotsOf(files[ino]);
      var slots, over := files[ino].slots, files[ino].over;
      FileOwned(files[ino], m);
      var i := 0;
      while i < INLINE
        invariant 0 <= i <= INLINE && |slots| == INLINE && Mounted() && files == files0
        invariant forall j | 0 <= j < i :: slots[j] == UNUSED
        invariant forall j | i <= j < INLINE :: slots[j] == files0[ino].slots[j]
        invariant Balanced(used, refs, reserved, (m + Owned(over)) + SlotsOwned(files0[ino].slots[i..]))
      {
        SlotReleased(m + Owned(over), files0[ino].slots, i);
        FreeRange(slots[i].start, slots[i].blocks, (m + Owned(over)) + SlotsOwned(files0[ino].slots[i + 1..]));
        slots := slots[i := UNUSED];
        i := i + 1;
      }
      NoSlots(files0[ino].slots, i, m + Owned(over));
      FreeList(over, m);
      files := files[ino := File(files[ino].size, slots, [])];
      ClearedCollect(files[ino]);
      EmptyFile(files0, files, ino, bs);
    }

    /** Deletes a file: frees its blocks and drops the inode record. */
    method Unlink(ino: nat)
      requires Valid() && ino < |files|
      modifies this`used, this`refs, this`files
      ensures Valid() && OnlyFile(old(files), files, ino) && files[ino] == EMPTY_FILE
    {
      hide Balanced, Total, Collect, LayoutOk, Lossless, Pow256;
      FreeFile(ino);
      ghost var files1 := files;
      files := files[ino := EMPTY_FILE];
      EmptyFiles(0, bs);
      ClearedCollect(EMPTY_FILE);
      SameTotal(files1, ino, EMPTY_FILE);
    }

    /** Frees all physical blocks of a list of extents. */
    method FreeList(list: seq<Ext>, ghost m: multiset<Lba>)
      requires Mounted() && Balanced(used, refs, reserved, m + Owned(list))
      modifies this`used, this`refs
      ensures Mounted() && Balanced(used, refs, reserved, m)
    {
      hide Balanced, Owned, Range, Lossless, Pow256;
      var i := 0;
      assert list[0..] == list;
      while i < |list|
        invariant 0 <= i <= |list| && Mounted()
        invariant Balanced(used, refs, reserved, m + Owned(list[i..]))
      {
        OwnedFrom(list, i, m);
        FreeRange(list[i].ps, list[i].pc, m + Owned(list[i + 1..]));
        i := i + 1;
      }
      OwnedNone(list[i..], m);
    }

    /** Blocks of which only the number and the size are known. */
    method SomeBlocks(n: nat) returns (blocks: seq<Block>)
      ensures |blocks| == n && AllSized(blocks, bs)
    {
      blocks := seq(n, _ => Zeros(bs));
    }

    /** Replaces the kept part of a compressed extent by a private uncompressed copy. */
    method Unshare(e: Ext, pos: nat, keep: nat, ghost m: multiset<Lba>, ghost content: Option<seq<Block>>)
      returns (st: Status, e': Ext)
      requires Mounted() && ExtOk(e) && !Plain(e) && 0 < keep < e.lc && pos <= e.ls
      requires Balanced(used, refs, reserved, m + multiset(Range(e.ps, e.pc)))
      requires content.Some? ==> AllSized(content.value, bs) && ExtShows(device, codec, e, content.value)
      modifies this`used, this`nextFree, this`refs, this`device
      ensures Outcome(st, content.Some?)
      ensures st == Io <==> pos == e.ls && !Unpacks(old(device), codec, e)
      ensures st == Ok ==> Mounted() && e' == Ext(e.ls, keep, e'.ps, keep)
      ensures st == Ok ==>
        Balanced(used, refs, reserved, m + multiset(Range(e'.ps, e'.pc))) && SameOn(old(device), device, m)
      ensures st == Ok && content.Some? && pos == e.ls ==> ExtShows(device, codec, e', content.value)
    {
      hide Balanced, Range, Lossless, Pow256, ExtShows, Unpacks;
      e' := e;
      var blocks: seq<Block>;
      if pos == e.ls {
        st, blocks := ReadExtentBlocks(e, pos, keep, content);
        if st != Ok {
          return;
        }
      } else {
        // In a list with gaps the source computes a wrapped-around offset here; whatever bytes
        // the copy then yields are stored.
        blocks := SomeBlocks(keep);
      }
      FreeRange(e.ps, e.pc, m);
      var start;
      st, start := AllocBlocks(keep, m);
      if st != Ok {
        return;
      }
      WriteDevice(start, blocks);
      FreshWrite(old(device), device, m, start, keep);
      e' := Ext(e.ls, keep, start, keep);
      if content.Some? && pos == e.ls {
        PlainShown(device, codec, e, e', content.value, blocks);
      }
    }

    /** One extent of a truncation to n blocks, `pos` of which the extents before it provide. */
    method TruncateExtent(e: Ext, pos: nat, n: nat, ghost m: multiset<Lba>, ghost content: Option<seq<Block>>)
      returns (st: Status, piece: seq<Ext>, pos': nat)
      requires Mounted() && ExtOk(e) && pos <= n && (pos < n ==> pos <= e.ls)
      requires Balanced(used, refs, reserved, m + multiset(Range(e.ps, e.pc)))
      requires content.Some? ==> AllSized(content.value, bs) && ExtShows(device, codec, e, content.value)
      modifies this`used, this`nextFree, this`refs, this`device
      ensures Outcome(st, content.Some?)
      ensures st == Io <==> !Plain(e) && pos < n < pos + e.lc && pos == e.ls && !Unpacks(old(device), codec, e)
      ensures Plain(e) || !(pos < n < pos + e.lc) ==> st == Ok && device == old(device)
      ensures st == Ok ==> Mounted() && pos' == (if pos + e.lc <= n then pos + e.lc else n)
      ensures st == Ok ==> TruncatedTo(e, piece, pos' - pos) && (pos < pos' < pos + e.lc ==> Plain(piece[0]))
      ensures st == Ok ==> Balanced(used, refs, reserved, m + Owned(piece)) && SameOn(old(device), device, m)
      ensures st == Ok && content.Some? && (!Plain(e) && pos < n < pos + e.lc ==> pos == e.ls) ==>
        Shows(device, codec, piece, content.value)
    {
      hide Balanced, Owned, Range, Lossless, Pow256, ExtShows, SameOn, Unpacks;
      st, piece, pos' := Ok, [], n;
      SameOnRefl(device, m);
      if pos + e.lc <= n {
        OwnedOne(e);
        return Ok, [e], pos + e.lc;
      }
      if pos >= n {
        FreeRange(e.ps, e.pc, m);
        OwnedNone([], m);
        return;
      }
      var keep := n - pos;
      if Plain(e) {
        var e' := e.(lc := keep, pc := keep);
        SplitOwned(e, keep, m);
        FreeRange(e.ps + keep, e.pc - keep, m + Owned([e']));
        piece := [e'];
        if content.Some? {
          PartShows(device, codec, e, content.value, 0, keep);
        }
      } else {
        var e';
        st, e' := Unshare(e, pos, keep, m, content);
        OwnedOne(e');
        piece := [e'];
      }
    }

    /** Truncates the list to n logical blocks, freeing everything behind them; it fails to read exactly if the cut
        falls into a compressed extent that does not unpack and has no gap before it. */
    method TruncateList(list: seq<Ext>, n: nat, ghost total: nat, ghost m: multiset<Lba>,
                        ghost content: Option<seq<Block>>)
      returns (st: Status, kept: seq<Ext>)
      requires Mounted() && AllOk(list) && Sorted(list) && Within(list, total)
      requires Balanced(used, refs, reserved, m + Owned(list))
      requires content.Some? ==> AllSized(content.value, bs) && Shows(device, codec, list, content.value)
      modifies this`used, this`nextFree, this`refs, this`device
      ensures Outcome(st, content.Some?)
      ensures st == Io <==> exists i: nat :: CutFails(old(device), codec, list, n, i)
      ensures st == Ok ==> KeptTo(list, n, kept)
      ensures st == Ok ==> Mounted() && AllOk(kept) && Sorted(kept) && Within(kept, total)
      ensures st == Ok ==> Balanced(used, refs, reserved, m + Owned(kept)) && SameOn(old(device), device, m)
      ensures st == Ok && Covers(list, 0, total) && n <= total ==> Covers(kept, 0, n)
      ensures st == Ok && Aligned(list) ==> Aligned(kept)
      ensures st == Ok && BoundaryPlain(list, n) ==> kept == Truncated(list, n)
      ensures st == Ok && content.Some? && CutClear(list, n) ==> Shows(device, codec, kept, content.value)
    {
      hide Balanced, Owned, Range, Lossless, Pow256, ExtShows, Shows, SameOn, Covers, Aligned, AllOk, Sorted, Within,
           AllSized, TruncatedTo,
           Truncating, TruncatingCovers, TruncatingShows, TruncatingTo, BoundaryPlain, Truncated, KeptSoFar, KeptTo,
           CutAt, Unpacks;
      kept, st := [], Ok;
      var i := 0;
      var pos: nat := 0;
      ghost var shown := if CutClear(list, n) then content else None;
      ghost var blocks := if content.Some? then content.value else [];
      SameOnRefl(device, m);
      TruncateStart(list, n, total, m, device, codec, blocks);
      TruncateToStart(list, n);
      KeptStart(list, n);
      while i < |list|
        invariant 0 <= i <= |list| && pos <= n && st == Ok && Mounted() && SameOn(old(device), device, m)
        invariant Truncating(list, i, kept, pos, n, total)
        invariant Covers(list, 0, total) ==> TruncatingCovers(list, i, kept, pos, n, total)
        invariant BoundaryPlain(list, n) ==> TruncatingTo(list, i, kept, pos, n)
        invariant Balanced(used, refs, reserved, (m + Owned(kept)) + Owned(list[i..]))
        invariant KeptSoFar(list, i, kept, pos, n) && (pos < n ==> device == old(device))
        invariant forall j | 0 <= j < i :: !CutFails(old(device), codec, list, n, j)
        invariant shown.Some? ==> TruncatingShows(device, codec, list, i, kept, blocks)
      {
        ghost var dev, kept0, pos0 := device, kept, pos;
        TruncateNext(list, i, kept, pos, n, total, device, codec, blocks);
        OwnedFrom(list, i, m + Owned(kept));
        CutHere(list, i, kept, pos, n);
        var piece;
        st, piece, pos := TruncateExtent(list[i], pos, n, (m + Owned(kept)) + Owned(list[i + 1..]), shown);
        assert st == Io <==> CutFails(old(device), codec, list, n, i);
        if st != Ok {
          CutNowhereElse(old(device), codec, list, n, i);
          if st == Io {
            FailsClear(old(device), codec, list, n, i);
          }
          return;
        }
        kept := kept + piece;
        KeptStep(list, i, kept0, piece, pos0, pos, n);
        TruncateOwned(m, kept0, piece, list[i + 1..]);
        TruncateFrame(dev, device, m, kept0, list[i + 1..]);
        SameOnTrans(old(device), dev, device, m);
        TruncateStep(list, i, kept0, piece, pos0, pos, n, total);
        if BoundaryPlain(list, n) {
          TruncateToStep(list, i, kept0, piece, pos0, pos, n);
        }
        if Covers(list, 0, total) {
          TruncateCoversStep(list, i, kept0, piece, pos0, pos, n, total);
        }
        if shown.Some? {
          TruncateShowsStep(dev, device, codec, list, i, kept0, piece, blocks);
        }
        i := i + 1;
      }
      TruncateToEnd(list, kept, pos, n);
      KeptEnd(list, kept, pos, n);
      NoneFails(old(device), codec, list, n);
      TruncateEnd(list, kept, pos, n, total, m, device, codec, blocks);
    }

    /** obmafs3_truncate_file_blocks: keeps the first n logical blocks, releases all others. */
    method TruncateBlocks(ino: nat, n: nat, ghost content: Option<seq<Block>>) returns (st: Status)
      requires Valid() && ino < |files|
      requires content.Some? ==>
        AllSized(content.value, bs) && Shows(device, codec, Collect(files[ino]), content.value)
      modifies this
      ensures Outcome(st, content.Some?)
      ensures st == Io <==> exists i: nat :: CutFails(old(device), codec, Collect(old(files)[ino]), n, i)
      ensures st == Ok ==> Valid() && OnlyFile(old(files), files, ino) && files[ino].size == old(files)[ino].size
      ensures st == Ok ==> SameOn(old(device), device, Others(old(files), ino))
      ensures st == Ok ==> TruncatedInto(device, codec, old(files)[ino], files[ino], n, content)
      ensures st == Ok && BoundaryPlain(Collect(old(files)[ino]), n) ==>
        Collect(files[ino]) == AfterTruncation(Collect(old(files)[ino]), n)
      ensures st == Ok && Gapless(old(files)[ino], bs) && n <= CeilDiv(files[ino].size, bs) ==>
        Covers(Collect(files[ino]), 0, n) && (Aligned(Collect(old(files)[ino])) ==> Aligned(Collect(files[ino])))
      ensures st == Ok && content.Some? && Holds(old(device), codec, bs, old(files)[ino], content.value)
              && n <= |content.value| ==>
        Shows(device, codec, Collect(files[ino]), content.value[..n])
    {
      hide Balanced, Owned, Total, Lossless, Pow256, Shows, Covers, Aligned, Sorted, AllOk, Within,
           SameOn, LayoutOk, Collect, Stores, Coalesce, Others, AllSized, CeilDiv, BoundaryPlain, Truncated, PackedList,
           KeptTo, CutAt, CutClear, Unpacks;
      ghost var m, files0 := Others(files, ino), files;
      TotalAround(files, ino);
      assert FileOk(files[ino], bs);
      SameOnRefl(device, m);
      var list := Collect(files[ino]);
      var total := SumLogical(list);
      ghost var blocks := CeilDiv(files[ino].size, bs);
      if Covers(list, 0, blocks) {
        SumOfCovers(list, 0, blocks);
      }
      if n >= total {
        assert content.Some? && n == |content.value| ==> content.value[..n] == content.value;
        NothingCut(device, codec, files[ino], n, content);
        return Ok;
      }
      var kept;
      st, kept := TruncateList(list, n, blocks, m, content);
      if st != Ok {
        return;
      }
      WriteExtentList(ino, kept);
      StoredFile(files0, files, ino, kept, bs);
      CoalesceSorted(kept);
      StoredPacked(files[ino], Coalesce(kept));
      assert TruncatedBy(device, codec, files0[ino], files[ino], n, content, kept);
      if Covers(list, 0, blocks) && n <= blocks {
        StoredAligned(files[ino], kept, n);
      }
      if content.Some? && Holds(old(device), codec, bs, files0[ino], content.value) && n <= |content.value| {
        GaplessCutClear(list, n, blocks);
        StoredTruncated(device, codec, files[ino], kept, n, content.value);
      }
    }

    static method SumLogical(list: seq<Ext>) returns (total: nat)
      ensures total == LogicalSum(list)
    {
      total := 0;
      var i := 0;
      while i < |list|
        invariant 0 <= i <= |list| && total + LogicalSum(list[i..]) == LogicalSum(list)
      {
        assert list[i..][1..] == list[i + 1..];
        total := total + list[i].lc;
        i := i + 1;
      }
    }

    /** Shrinking a file: drops the blocks behind the new size, then records it. The file stays in order exactly
        when what is left lies within its new size, as it does in a gapless file. */
    method Shrink(ino: nat, newsize: nat, ghost content: Option<seq<Block>>) returns (st: Status)
      requires Valid() && ino < |files| && newsize <= files[ino].size
      requires content.Some? ==>
        AllSized(content.value, bs) && Shows(device, codec, Collect(files[ino]), content.value)
      modifies this
      ensures Outcome(st, content.Some?)
      ensures st == Io <==>
        exists i: nat :: CutFails(old(device), codec, Collect(old(files)[ino]), CeilDiv(newsize, bs), i)
      ensures st == Ok ==> OnlyFile(old(files), files, ino) && SameOn(old(device), device, Others(old(files), ino))
      ensures st == Ok ==> Countable() && files[ino].size == newsize
      ensures st == Ok ==>
        TruncatedInto(device, codec, old(files)[ino], files[ino], CeilDiv(newsize, bs), content)
      ensures st == Ok ==> (Valid() <==> Within(Collect(files[ino]), CeilDiv(newsize, bs)))
      ensures st == Ok && BoundaryPlain(Collect(old(files)[ino]), CeilDiv(newsize, bs)) ==>
        Collect(files[ino]) == AfterTruncation(Collect(old(files)[ino]), CeilDiv(newsize, bs))
      ensures st == Ok && Gapless(old(files)[ino], bs) ==>
        Valid() && Gapless(files[ino], bs) && (Aligned(Collect(old(files)[ino])) ==> Aligned(Collect(files[ino])))
      ensures st == Ok && content.Some? && Holds(old(device), codec, bs, old(files)[ino], content.value) ==>
        CeilDiv(newsize, bs) <= |content.value|
          && Holds(device, codec, bs, files[ino], content.value[..CeilDiv(newsize, bs)])
    {
      hide Balanced, Owned, Total, Lossless, Pow256, Shows, Covers, Aligned, Sorted, AllOk, Within, SameOn, LayoutOk,
           Collect, Others, AllSized,
           KeysAscend, BoundaryPlain, AfterTruncation, TruncatedInto, CutFails;
      ghost var files0 := files;
      var oldBlocks := CeilDiv(files[ino].size, bs);
      var newBlocks := if newsize > 0 then CeilDiv(newsize, bs) else 0;
      ShrunkBlocks(newsize, files[ino].size, bs);
      hide CeilDiv;
      SameOnRefl(device, Others(files, ino));
      st := Ok;
      if newBlocks < oldBlocks {
        st := TruncateBlocks(ino, newBlocks, content);
        if st != Ok {
          return;
        }
      } else {
        assert FileOk(files[ino], bs);
        NothingTruncated(Collect(files[ino]), newBlocks);
        SumWithin(Collect(files[ino]), newBlocks, 0);
        NothingCut(device, codec, files[ino], newBlocks, content);
      }
      ghost var files1 := files;
      assert FileOk(files[ino], bs);
      ValidIsCountable();
      files := files[ino := files[ino].(size := newsize)];
      SizeOnly(files1[ino], newsize);
      SameTotal(files1, ino, files[ino]);
      ShrunkInOrder(files1, files, ino, bs);
      if Covers(Collect(files[ino]), 0, newBlocks) {
        CoveredWithin(Collect(files[ino]), newBlocks);
      }
      StillTruncated(device, codec, files0[ino], files1[ino], newsize, newBlocks, content);
      if content.Some? && Holds(old(device), codec, bs, files0[ino], content.value) {
        assert newBlocks == |content.value| ==> content.value[..newBlocks] == content.value;
        ShrunkHolds(device, codec, bs, files[ino], newBlocks, content.value);
      }
    }

    // ----- clones

    /** Clones the part of one source extent that lies in the range: shares uncompressed blocks and whole
        compressed extents, and copies a part of a compressed extent. */
    method CloneExtent(e: Ext, h: Shift, ghost m: multiset<Lba>, ghost cs: seq<Block>, ghost y: Option<seq<Block>>)
      returns (st: Status, piece: Ext)
      requires Mounted() && ExtOk(e) && Overlaps(e, h) && h.n > 0
      requires Balanced(used, refs, reserved, m) && multiset(Range(e.ps, e.pc)) <= m
      requires y.Some? ==>
        AllSized(cs, bs) && ExtShows(device, codec, e, cs) && h.from + h.n <= |cs| && h.to + h.n <= |y.value|
      requires y.Some? ==> y.value[h.to..h.to + h.n] == cs[h.from..h.from + h.n]
      modifies this`used, this`nextFree, this`refs, this`device
      ensures st == Ok && Shareable(e, h) ==> used == old(used) && device == old(device)
      ensures Outcome(st, y.Some?)
      ensures st == Io <==> !Shareable(e, h) && !Unpacks(old(device), codec, e)
      ensures st == Ok ==> Mounted() && ClonedFrom(e, h, piece)
      ensures st == Ok ==>
        Balanced(used, refs, reserved, m + multiset(Range(piece.ps, piece.pc))) && SameOn(old(device), device, m)
      ensures st == Ok && y.Some? ==> ExtShows(device, codec, piece, y.value)
    {
      hide Balanced, Range, Lossless, Pow256, ExtShows, SameOn, ClonedFrom, AllSized, Unpacks;
      var rangeEnd := h.from + h.n;
      var os, oe := if e.ls > h.from then e.ls else h.from, if End(e) < rangeEnd then End(e) else rangeEnd;
      CloneForms(e, h, os, oe);
      var n := oe - os;
      var at := h.to + (os - h.from);
      SameOnRefl(device, m);
      if y.Some? {
        ShownEnd(device, codec, e, cs);
        CloneTarget(e, h, cs, y.value);
      }
      if Plain(e) || (os == e.ls && n == e.lc) {
        piece := ShareExtent(e, os, n, at, m, cs, y);
        st := Ok;
      } else {
        st, piece := CopyPart(e, os, n, at, m, cs, y);
      }
    }

    /** Shares n blocks of an uncompressed extent, or a whole compressed extent. */
    method ShareExtent(e: Ext, os: nat, n: nat, at: nat, ghost m: multiset<Lba>, ghost cs: seq<Block>,
                       ghost y: Option<seq<Block>>)
      returns (piece: Ext)
      requires Mounted() && ExtOk(e) && e.ls <= os && os + n <= End(e) && 0 < n
      requires (Plain(e) || (os == e.ls && n == e.lc))
      requires Balanced(used, refs, reserved, m) && multiset(Range(e.ps, e.pc)) <= m
      requires y.Some? ==> ExtShows(device, codec, e, cs) && os + n <= |cs|
      requires y.Some? ==> at + n <= |y.value| && y.value[at..at + n] == cs[os..os + n]
      modifies this`refs
      ensures Mounted() && piece == if Plain(e) then Ext(at, n, e.ps + (os - e.ls), n) else e.(ls := at)
      ensures Balanced(used, refs, reserved, m + multiset(Range(piece.ps, piece.pc)))
      ensures y.Some? ==> ExtShows(device, codec, piece, y.value)
    {
      hide Balanced, Range, Lossless, Pow256, ExtShows, AllSized;
      if Plain(e) {
        piece := Ext(at, n, e.ps + (os - e.ls), n);
        if y.Some? {
          ShownEnd(device, codec, e, cs);
          PartMoved(device, codec, e, os - e.ls, piece, cs, y.value);
        }
        ShareBlocks(e, os - e.ls, n, m);
      } else {
        piece := e.(ls := at);
        if y.Some? {
          MovedShows(device, codec, e, piece, cs, y.value);
        }
        ShareBlocks(e, 0, e.pc, m);
      }
    }

    /** Adds one reference to n physical blocks of an extent, `skip` blocks from its start. */
    method ShareBlocks(e: Ext, skip: nat, n: nat, ghost m: multiset<Lba>)
      requires Mounted() && skip + n <= e.pc && Balanced(used, refs, reserved, m) && multiset(Range(e.ps, e.pc)) <= m
      modifies this`refs
      ensures Mounted() && Balanced(used, refs, reserved, m + multiset(Range(e.ps + skip, n)))
    {
      hide Balanced, Range, Lossless, Pow256;
      SubRange(e.ps, skip, n, e.pc, m);
      ShareRange(e.ps + skip, n, m);
    }

    /** A private uncompressed copy of n blocks of a compressed extent. */
    method CopyPart(e: Ext, os: nat, n: nat, at: nat, ghost m: multiset<Lba>, ghost cs: seq<Block>,
                    ghost y: Option<seq<Block>>)
      returns (st: Status, piece: Ext)
      requires Mounted() && !Plain(e) && e.ls <= os && os + n <= End(e) && 0 < n <= GROUP
      requires Balanced(used, refs, reserved, m)
      requires y.Some? ==> AllSized(cs, bs) && ExtShows(device, codec, e, cs) && os + n <= |cs|
      requires y.Some? ==> at + n <= |y.value| && y.value[at..at + n] == cs[os..os + n]
      modifies this`used, this`nextFree, this`device
      ensures Outcome(st, y.Some?)
      ensures st == Io <==> !Unpacks(old(device), codec, e)
      ensures st == Ok ==> Mounted() && piece == Ext(at, n, piece.ps, n)
      ensures st == Ok ==>
        Balanced(used, refs, reserved, m + multiset(Range(piece.ps, n))) && SameOn(old(device), device, m)
      ensures st == Ok && y.Some? ==> ExtShows(device, codec, piece, y.value)
    {
      hide Balanced, Range, Lossless, Pow256, ExtShows, Unpacks;
      piece := Ext(at, n, 0, n);
      var blocks;
      st, blocks := ReadExtentBlocks(e, os, n, if y.Some? then Some(cs) else None);
      if st != Ok {
        return;
      }
      var start;
      st, start := AllocBlocks(n, m);
      if st != Ok {
        return;
      }
      WriteDevice(start, blocks);
      FreshWrite(old(device), device, m, start, n);
      piece := Ext(at, n, start, n);
      if y.Some? {
        PlainShown(device, codec, e, piece, y.value, blocks);
      }
    }

    /** Builds the cloned extents from the source list. */
    method CloneExtents(list: seq<Ext>, h: Shift, ghost m: multiset<Lba>, ghost cov: nat, ghost cs: seq<Block>,
                        ghost y: Option<seq<Block>>)
      returns (st: Status, clones: seq<Ext>)
      requires Mounted() && AllOk(list) && Sorted(list) && Balanced(used, refs, reserved, m) && Owned(list) <= m
      requires h.n > 0
      requires y.Some? ==> AllSized(cs, bs) && h.from + h.n <= |cs| && h.to + h.n <= |y.value|
      requires y.Some? ==> y.value[h.to..h.to + h.n] == cs[h.from..h.from + h.n]
      requires y.Some? ==> Shows(device, codec, list, cs)
      modifies this`used, this`nextFree, this`refs, this`device
      ensures st == Ok && AllShareable(list, h) ==>
        used == old(used) && device == old(device) && clones == SharedClones(list, h)
      ensures Outcome(st, y.Some?)
      ensures st != NoSpace ==> (st == Io <==> exists i: nat :: PartFails(old(device), codec, list, h, i))
      ensures st == Ok ==> Mounted() && Cloning(list, |list|, clones, h) && CloneAligned(list, clones, h)
      ensures st == Ok ==> Balanced(used, refs, reserved, m + Owned(clones)) && SameOn(old(device), device, m)
      ensures st == Ok && Covers(list, 0, cov) && h.from + h.n <= cov ==> Covers(clones, h.to, h.to + h.n)
      ensures st == Ok && y.Some? ==> Shows(device, codec, clones, y.value)
    {
      hide Balanced, Owned, Range, Lossless, Pow256, ExtShows, Shows, SameOn, Covers, Aligned, AllOk, Sorted, AllSized,
           ClonedFrom, Cloning, CloneAligned, SharedClones, SharedPart, CloningCovers, Unpacks;
      clones, st := [], Ok;
      var i := 0;
      ghost var pos: nat := 0;
      SameOnRefl(device, m);
      CloneStart(list, h, m);
      if y.Some? {
        ShowsNone(device, codec, y.value);
      }
      SharedNone(list, h);
      while i < |list|
        invariant 0 <= i <= |list| && st == Ok && Mounted() && SameOn(old(device), device, m)
        invariant AllShareable(list, h) ==>
          used == old(used) && device == old(device) && clones == SharedClones(list[..i], h)
        invariant forall j | 0 <= j < i :: !PartFails(old(device), codec, list, h, j)
        invariant Cloning(list, i, clones, h) && CloneAligned(list, clones, h)
        invariant Balanced(used, refs, reserved, m + Owned(clones))
        invariant Covers(list, 0, cov) ==> CloningCovers(list, i, pos, clones, h)
        invariant y.Some? ==> Shows(device, codec, list, cs) && Shows(device, codec, clones, y.value)
      {
        ghost var dev, clones0 := device, clones;
        SharedNext(list, i, h);
        if !Overlaps(list[i], h) {
          CloneSkip(list, i, clones, h);
          if Covers(list, 0, cov) {
            CloneCoversSkip(list, i, pos, cov, clones, h);
          }
        } else {
          MemberOf(list, i, m, Owned(clones), device, codec, cs);
          var piece;
          StillFails(old(device), device, codec, list, h, i, m);
          st, piece := CloneExtent(list[i], h, m + Owned(clones), cs, y);
          if st != Ok {
            return;
          }
          if Shareable(list[i], h) {
            SharedIsPart(list[i], h, piece);
          }
          clones := clones + [piece];
          CloneStep(list, i, clones0, h, piece);
          AppendOwned(m, clones0, piece);
          SameOnParts(dev, device, m, Owned(clones0));
          SameOnTrans(old(device), dev, device, m);
          if y.Some? {
            SameOnSub(dev, device, Owned(list), m);
            CloneShows(dev, device, codec, list, clones0, piece, cs, y.value);
          }
          if Covers(list, 0, cov) {
            CloneCoversStep(list, i, pos, cov, clones0, h, piece);
          }
        }
        pos := End(list[i]);
        i := i + 1;
      }
      assert list[..i] == list;
      if Covers(list, 0, cov) && h.from + h.n <= cov {
        CloneEnd(list, pos, cov, clones, h);
      }
    }

    /** Frees what the destination list holds in blocks [gs, ge). */
    method FreeOverlaps(list: seq<Ext>, gs: nat, ge: nat, ghost m: multiset<Lba>)
      requires Mounted() && gs < ge && AllOk(list)
      requires Balanced(used, refs, reserved, m + Owned(list))
      modifies this`used, this`refs
      ensures used <= old(used)
      ensures Mounted() && Balanced(used, refs, reserved, m + Owned(CutAll(list, gs, ge)))
    {
      hide Balanced, Owned, Range, CutAll, CutExt, CutStart, CutCount, Lossless, Pow256;
      ghost var cur := list;
      var i := 0;
      CutNone(gs, ge);
      assert list[..0] == [];
      while i < |list|
        invariant used <= old(used)
        invariant 0 <= i <= |list| && Mounted() && cur == CutAll(list[..i], gs, ge) + list[i..]
        invariant Balanced(used, refs, reserved, m + Owned(cur))
      {
        CutStep(list, i, gs, ge, cur, m);
        ghost var n := |CutAll(list[..i], gs, ge)|;
        ghost var next := cur[..n] + CutExt(list[i], gs, ge) + cur[n + 1..];
        FreeOverlap(list[i], gs, ge, m + Owned(next));
        cur := next;
        i := i + 1;
      }
      assert list[..i] == list && cur == CutAll(list, gs, ge);
    }

    /** Frees the overlapping blocks of an uncompressed extent, or an overlapping compressed extent entirely. */
    method FreeOverlap(e: Ext, gs: nat, ge: nat, ghost m: multiset<Lba>)
      requires Mounted() && gs < ge && ExtOk(e)
      requires Balanced(used, refs, reserved, m + multiset(Range(CutStart(e, gs, ge), CutCount(e, gs, ge))))
      modifies this`used, this`refs
      ensures used <= old(used)
      ensures Mounted() && Balanced(used, refs, reserved, m)
    {
      hide Balanced, Range, Lossless, Pow256;
      if End(e) <= gs || e.ls >= ge {
        PlusNone(m, CutStart(e, gs, ge));
      } else if Plain(e) {
        var os, oe := if e.ls > gs then e.ls else gs, if End(e) < ge then End(e) else ge;
        FreeRange(e.ps + (os - e.ls), oe - os, m);
      } else {
        FreeRange(e.ps, e.pc, m);
      }
    }

    /** The surviving destination extents around the clones. */
    static method AssembleList(list: seq<Ext>, clones: seq<Ext>, h: Shift) returns (next: seq<Ext>)
      requires AllOk(list)
      ensures next == NewList(list, clones, h)
    {
      hide KeepLeft, KeepRight;
      next := [];
      KeepNone(h);
      var i := 0;
      assert list[..0] == [];
      while i < |list|
        invariant 0 <= i <= |list| && next == KeepLeft(list[..i], h.to)
      {
        KeepStep(list, i, h.to);
        var e := list[i];
        if End(e) <= h.to {
          next := next + [e];
        } else if e.ls < h.to && Plain(e) {
          next := next + [e.(lc := h.to - e.ls, pc := h.to - e.ls)];
        }
        i := i + 1;
      }
      assert list[..i] == list;
      next := next + clones;
      var end := h.to + h.n;
      i := 0;
      while i < |list|
        invariant 0 <= i <= |list| && next == KeepLeft(list, h.to) + clones + KeepRight(list[..i], end)
      {
        KeepStep(list, i, end);
        var e := list[i];
        if e.ls >= end {
          next := next + [e];
        } else if End(e) > end && Plain(e) {
          var skip := end - e.ls;
          next := next + [Ext(end, e.lc - skip, e.ps + skip, e.pc - skip)];
        }
        i := i + 1;
      }
      assert list[..i] == list;
    }

    /** obmafs3_clone_file_range, on any two files whose extents show something. The destination stays gapless when
        both are, the source range is covered, the destination offset is not past the destination's blocks and the
        range cuts no compressed extent of the destination. */
    method CloneRange(src: nat, srcOffset: nat, dst: nat, dstOffset: nat, length: nat, ghost cs: seq<Block>,
                      ghost cd: Option<seq<Block>>)
      returns (st: Status)
      requires Valid() && src < |files| && dst < |files|
      requires cd.Some? ==>
        Presents(device, codec, bs, files[src], cs) && Presents(device, codec, bs, files[dst], cd.value)
      modifies this
      ensures st != Inval ==> Outcome(st, cd.Some?)
      ensures st == Ok || st == Io ==> var h := ShiftFor(srcOffset, dstOffset, length, bs);
        (st == Io <==> exists i: nat :: PartFails(old(device), codec, Collect(old(files)[src]), h, i))
      ensures st == Inval <==>
        srcOffset % bs != 0 || dstOffset % bs != 0 || length % bs != 0 || length == 0 || src == dst
      ensures st == Inval ==> device == old(device) && used == old(used) && refs == old(refs) && files == old(files)
      ensures st == Ok ==> Valid() && OnlyFile(old(files), files, dst) && SameOn(old(device), device, Total(old(files)))
      ensures st == Ok ==> files[dst].size == NewSize(old(files)[dst].size, dstOffset, length)
      ensures st == Ok && AllShareable(Collect(old(files)[src]), ShiftFor(srcOffset, dstOffset, length, bs)) ==>
        used <= old(used) && device == old(device)
      ensures st == Ok && AllShareable(Collect(old(files)[src]), ShiftFor(srcOffset, dstOffset, length, bs)) ==>
        SharedInto(old(files)[src], old(files)[dst], files[dst], ShiftFor(srcOffset, dstOffset, length, bs))
      ensures st == Ok && cd.Some? ==> exists clones ::
        ClonedInto(device, codec, bs, old(files)[dst], files[dst], ShiftFor(srcOffset, dstOffset, length, bs), cd.value,
                   cs, clones)
      ensures st == Ok && Cloneable(old(device), codec, bs, old(files)[src], old(files)[dst],
                                    ShiftFor(srcOffset, dstOffset, length, bs), cs, cd) ==>
        var h := ShiftFor(srcOffset, dstOffset, length, bs);
        && (Gapless(files[dst], bs) <==> CutsNone(h, Collect(old(files)[dst])))
        && (Holds(device, codec, bs, files[dst], ClonedContent(cd.value, cs, h))
            <==> CutsNone(h, Collect(old(files)[dst])))
      ensures st == Ok && Cloneable(old(device), codec, bs, old(files)[src], old(files)[dst],
                                    ShiftFor(srcOffset, dstOffset, length, bs), cs, cd) ==>
        InStep(ShiftFor(srcOffset, dstOffset, length, bs)) ==>
        Aligned(Collect(old(files)[src])) ==> Aligned(Collect(old(files)[dst])) ==>
        CutsNone(ShiftFor(srcOffset, dstOffset, length, bs), Collect(old(files)[dst])) ==> Aligned(Collect(files[dst]))
    {
      if srcOffset % bs != 0 || dstOffset % bs != 0 || length % bs != 0 || length == 0 {
        return Inval;
      }
      if src == dst {
        return Inval;
      }
      hide Valid, Holds, Presents, ClonedInto, Cloneable, CloneInside, CutsNone, Gapless, ClonedContent, Collect,
           SameOn, Total, Aligned, InStep,
           ShiftFor, AllShareable, SharedInto, PartFails;
      ShiftOf(srcOffset, dstOffset, length, bs);
      st := CloneBlocks(src, dst, ShiftFor(srcOffset, dstOffset, length, bs), dstOffset + length, cs, cd);
    }

    method CloneBlocks(src: nat, dst: nat, h: Shift, newEnd: nat, ghost cs: seq<Block>, ghost cd: Option<seq<Block>>)
      returns (st: Status)
      requires Valid() && src < |files| && dst < |files| && src != dst && h.n > 0 && newEnd == (h.to + h.n) * bs
      requires cd.Some? ==>
        Presents(device, codec, bs, files[src], cs) && Presents(device, codec, bs, files[dst], cd.value)
      modifies this
      ensures st == Ok && AllShareable(Collect(old(files)[src]), h) ==> used <= old(used) && device == old(device)
      ensures Outcome(st, cd.Some?)
      ensures st != NoSpace ==>
        (st == Io <==> exists i: nat :: PartFails(old(device), codec, Collect(old(files)[src]), h, i))
      ensures st == Ok ==> Valid() && OnlyFile(old(files), files, dst) && SameOn(old(device), device, Total(old(files)))
      ensures st == Ok && AllShareable(Collect(old(files)[src]), h) ==>
        SharedInto(old(files)[src], old(files)[dst], files[dst], h)
      ensures st == Ok ==> files[dst].size == if newEnd > old(files)[dst].size then newEnd else old(files)[dst].size
      ensures st == Ok && cd.Some? ==> exists clones ::
        ClonedInto(device, codec, bs, old(files)[dst], files[dst], h, cd.value, cs, clones)
      ensures st == Ok && Cloneable(old(device), codec, bs, old(files)[src], old(files)[dst], h, cs, cd) ==>
        && (Gapless(files[dst], bs) <==> CutsNone(h, Collect(old(files)[dst])))
        && (Holds(device, codec, bs, files[dst], ClonedContent(cd.value, cs, h))
            <==> CutsNone(h, Collect(old(files)[dst])))
      ensures st == Ok && Cloneable(old(device), codec, bs, old(files)[src], old(files)[dst], h, cs, cd) ==>
        InStep(h) ==>
        Aligned(Collect(old(files)[src])) ==> Aligned(Collect(old(files)[dst])) ==>
        CutsNone(h, Collect(old(files)[dst])) ==> Aligned(Collect(files[dst]))
    {
      hide Balanced, Owned, Total, Lossless, Pow256, Shows, Covers, Aligned, Sorted, AllOk, Within, Uncut, Cloning,
           CloneAligned,
           SameOn, LayoutOk, Collect, Stores, Coalesce, Others, AllSized, NewList, ClonedContent, CutAll, AllShareable,
           CutsNone, Gapless, SharedClones, SharedInto, FileOk, Exhausted, Holds, Presents, ClonedInto, Pasted,
           Extended, ZeroOutside, PartFails;
      ghost var files0, dev0 := files, device;
      TotalOwns(files, src);
      FileParts(files[src], bs);
      FileParts(files[dst], bs);
      var srcList := Collect(files[src]);
      ghost var y: Option<seq<Block>>, x: seq<Block> := None, cs;
      if cd.Some? {
        ghost var n := if h.from + h.n < |cs| then |cs| else h.from + h.n;
        x, y := Extended(cs, n, bs), Some(Pasted(cd.value, cs, h, bs));
        PastedMiddle(cd.value, cs, h, bs, x);
        PresentsMore(dev0, codec, bs, files[src], cs, n);
      }
      var clones;
      st, clones := CloneExtents(srcList, h, Total(files), |cs|, x, y);
      if st != Ok {
        return;
      }
      StoreClones(dst, clones, h, newEnd, srcList);
      if AllShareable(srcList, h) {
        SharedStored(files0[src], files0[dst], files[dst], h, NewList(Collect(files0[dst]), clones, h));
      }
      if cd.Some? {
        TotalAround(files0, dst);
        SameOnParts(dev0, device, Others(files0, dst), Owned(Collect(files0[dst])));
        CloneShown(dev0, device, codec, bs, files0[dst], files[dst], clones, h, cd.value, cs);
        if Cloneable(dev0, codec, bs, files0[src], files0[dst], h, cs, cd) {
          HeldParts(dev0, codec, bs, files0[src], cs);
          HeldParts(dev0, codec, bs, files0[dst], cd.value);
          CloneResult(device, codec, bs, files0[dst], files[dst], srcList, clones, h, cd.value, cs);
        }
      }
    }

    /** Frees what the destination holds in the range and stores its remaining extents around the clones. */
    method StoreClones(dst: nat, clones: seq<Ext>, h: Shift, newEnd: nat, ghost src: seq<Ext>)
      requires Mounted() && dst < |files| && h.n > 0 && newEnd == (h.to + h.n) * bs && Cloning(src, |src|, clones, h)
      requires forall i | 0 <= i < |files| :: FileOk(files[i], bs)
      requires Balanced(used, refs, reserved, Total(files) + Owned(clones))
      modifies this`used, this`refs, this`files
      ensures Valid() && OnlyFile(old(files), files, dst) && used <= old(used)
      ensures files[dst].size == if newEnd > old(files)[dst].size then newEnd else old(files)[dst].size
      ensures var next := NewList(Collect(old(files)[dst]), clones, h);
        && AllOk(next) && Sorted(next) && Within(next, CeilDiv(files[dst].size, bs))
        && Stores(files[dst], Coalesce(next))
    {
      hide Balanced, Owned, Total, Lossless, Pow256, Sorted, AllOk, Within, Cloning, LayoutOk, Collect, Stores,
           Coalesce,
           Others, AllSized, NewList, CutAll;
      ghost var m, files0 := Others(files, dst), files;
      TotalAround(files, dst);
      assert FileOk(files[dst], bs);
      var list := Collect(files[dst]);
      Rearrange(m, Owned(list), Owned(clones));
      FreeOverlaps(list, h.to, h.to + h.n, m + Owned(clones));
      var next := AssembleList(list, clones, h);
      ghost var n := CeilDiv(if newEnd > files[dst].size then newEnd else files[dst].size, bs);
      GrownWithin(list, files[dst].size, newEnd, h.to + h.n, bs);
      NewListOk(list, clones, h, n, src);
      WriteExtentList(dst, next);
      StoresSize(files[dst], newEnd, Coalesce(next));
      if newEnd > files[dst].size {
        files := files[dst := files[dst].(size := newEnd)];
      }
      Rearranged(m, Owned(clones), Owned(CutAll(list, h.to, h.to + h.n)), Owned(next));
      StoredFile(files0, files, dst, next, bs);
    }

    // ----- reads

    /** find_extent: the inline extents first, then the overflow extents. */
    static method FindExtent(f: File, b: nat) returns (r: Option<Ext>)
      ensures Finds(Collect(f), b, r)
    {
      var base: nat := 0;
      var i := 0;
      assert f.slots[0..] == f.slots;
      while i < |f.slots|
        invariant 0 <= i <= |f.slots|
        invariant forall r :: Finds(InlineExts(f.slots[i..], base), b, r) ==> Finds(InlineExts(f.slots, 0), b, r)
      {
        var slot := f.slots[i];
        assert f.slots[i..][1..] == f.slots[i + 1..];
        if !(slot.blocks == 0 && slot.logical == 0) {
          var e := Ext(base, slot.logical, slot.start, slot.blocks);
          ghost var rest := InlineExts(f.slots[i + 1..], base + slot.logical);
          assert InlineExts(f.slots[i..], base) == [e] + rest;
          if base <= b < base + slot.logical {
            assert FirstWith([e], b, 0);
            FoundIn([e], rest, b, e);
            FoundIn(InlineExts(f.slots, 0), f.over, b, e);
            return Some(e);
          }
          forall r | Finds(rest, b, r) ensures Finds(InlineExts(f.slots[i..], base), b, r) {
            FindsMore([e], rest, b, r);
          }
          base := base + slot.logical;
        }
        i := i + 1;
      }
      assert Finds(InlineExts(f.slots[i..], base), b, None);
      r := FindOver(f.over, b);
      FindsMore(InlineExts(f.slots, 0), f.over, b, r);
    }

    /** overflow_find_extent, on the overflow extents of one inode. */
    static method FindOver(over: seq<Ext>, b: nat) returns (r: Option<Ext>)
      ensures Finds(over, b, r)
    {
      for i := 0 to |over|
        invariant forall k | 0 <= k < i :: !In(over[k], b)
      {
        if over[i].ls <= b < over[i].ls + over[i].lc {
          assert FirstWith(over, b, i);
          return Some(over[i]);
        }
      }
      return None;
    }

    /** Reads from an uncompressed extent, block by block. */
    method ReadPlain(e: Ext, pos: nat, want: nat) returns (st: Status, out: Bytes)
      requires Mounted() && Plain(e) && In(e, BlockAt(pos, bs)) && 0 < want <= Available(e, pos, bs)
      ensures st == Ok || st == Io
      ensures st == Ok ==> |out| == want && forall j | 0 <= j < want :: ByteOf(device, codec, bs, e, pos + j, out[j])
      ensures st == Io ==> exists q :: pos <= q < pos + want && MissingAt(device, e, bs, q)
    {
      hide Lossless, Pow256, AllSized, ChunkEdge, Available, In, BlockAt, ByteOf, MissingAt;
      out := [];
      FirstEdge(pos, want, bs);
      while |out| < want
        invariant |out| <= want && ChunkEdge(pos, |out|, want, bs)
        invariant forall j | 0 <= j < |out| :: ByteOf(device, codec, bs, e, pos + j, out[j])
        decreases want - |out|
      {
        var chunk;
        st, chunk := ReadChunk(e, pos, |out|, want);
        if st != Ok {
          return Io, [];
        }
        out := out + chunk;
      }
      st := Ok;
    }

    /** Reads the next chunk, which ends at a block boundary or with the wanted bytes. */
    method ReadChunk(e: Ext, pos: nat, consumed: nat, want: nat) returns (st: Status, chunk: Bytes)
      requires Mounted() && Plain(e) && In(e, BlockAt(pos, bs)) && consumed < want <= Available(e, pos, bs)
      requires ChunkEdge(pos, consumed, want, bs)
      ensures st == Ok || st == Io
      ensures st == Ok ==> 0 < |chunk| <= want - consumed && ChunkEdge(pos, consumed + |chunk|, want, bs)
      ensures st == Ok ==> forall j | 0 <= j < |chunk| :: ByteOf(device, codec, bs, e, pos + (consumed + j), chunk[j])
      ensures st == Io ==> MissingAt(device, e, bs, pos + consumed)
    {
      hide Lossless, Pow256, Available, AllSized;
      var off := pos % bs;
      var cur := pos / bs + (off + consumed) / bs;
      var blkOff := if consumed == 0 then off else 0;
      var n := if want - consumed > bs - blkOff then bs - blkOff else want - consumed;
      NextChunk(pos, consumed, n, want, bs);
      StillInside(e, pos, consumed, want, bs);
      var lba := e.ps + (cur - e.ls);
      if lba >= |device| {
        return Io, [];
      }
      DeviceBlock(device, bs, lba);
      st, chunk := Ok, device[lba][blkOff..blkOff + n];
      forall j | 0 <= j < n ensures ByteOf(device, codec, bs, e, pos + (consumed + j), chunk[j]) {
        SameBlock(pos + consumed, j, cur, blkOff, bs);
      }
    }

    /** The bytes of a buffer that nothing was written to. */
    method StaleBytes(n: nat) returns (s: Bytes)
      ensures |s| == n
    {
      s := Zeros(n);
    }

    /** Reads from a compressed extent, which is decompressed unless the last one read started at the same
        physical block. Past the decompressed data the code copies whatever its buffer holds. */
    method ReadPacked(e: Ext, pos: nat, want: nat, cache: Cache) returns (st: Status, out: Bytes, cache': Cache)
      requires Mounted() && !Plain(e) && In(e, BlockAt(pos, bs)) && 0 < want <= Available(e, pos, bs)
      requires CacheOk(device, codec, cache)
      ensures st == Ok || st == Io
      ensures st == Io <==> !Hits(cache, e) && !Unpacks(device, codec, e)
      ensures st == Ok ==> |out| == want && CacheOk(device, codec, cache') && Hits(cache', e)
      ensures st == Ok ==> forall j | 0 <= j < want :: ByteOf(device, codec, bs, e, pos + j, out[j])
    {
      hide Lossless, Pow256, Join, Unpacked, Available, In, BlockAt, ByteOf;
      out, cache' := [], cache;
      if !cache.Cached? || cache.start != e.ps {
        if e.ps + e.pc > |device| {
          return Io, [], cache;
        }
        var decomp := Unpacked(codec, Join(device[e.ps..e.ps + e.pc]));
        if !decomp.Data? {
          return Io, [], cache;
        }
        cache' := Cached(e.ps, decomp.bytes);
        assert UnpacksTo(device, codec, e.ps, e.pc, decomp.bytes);
      }
      StartOf(e, pos, bs);
      var at, data := (pos / bs - e.ls) * bs + pos % bs, cache'.bytes;
      var stale := StaleBytes(want);
      out := if at + want <= |data| then data[at..at + want] else (if at < |data| then data[at..] else []) + stale;
      out := out[..want];
      st := Ok;
      ghost var n: nat :| UnpacksTo(device, codec, e.ps, n, data);
      forall j | 0 <= j < want ensures ByteOf(device, codec, bs, e, pos + j, out[j]) {
        PackedByte(device, codec, bs, e, pos, j, want, n, data, out[j]);
      }
    }

    /** Reads what one extent provides of the wanted bytes. */
    method ReadSome(e: Ext, pos: nat, limit: nat, cache: Cache) returns (st: Status, out: Bytes, cache': Cache)
      requires Mounted() && In(e, BlockAt(pos, bs)) && limit > 0 && CacheOk(device, codec, cache)
      requires Available(e, pos, bs) > 0
      ensures st == Ok || st == Io
      ensures st == Ok ==> |out| == if limit < Available(e, pos, bs) then limit else Available(e, pos, bs)
      ensures st == Ok ==> forall j | 0 <= j < |out| :: ByteOf(device, codec, bs, e, pos + j, out[j])
      ensures st == Ok ==> CacheOk(device, codec, cache')
      ensures st == Ok ==> if Plain(e) then cache' == cache else Hits(cache', e)
      ensures !Plain(e) ==> (st == Io <==> !Hits(cache, e) && !Unpacks(device, codec, e))
      ensures st == Io && Plain(e) ==> exists q :: pos <= q < pos + limit && MissingAt(device, e, bs, q)
    {
      hide Lossless, Pow256, Available, CacheOk, In, AllSized, ByteOf, MissingAt, Unpacks;
      cache' := cache;
      var avail := Available(e, pos, bs);
      var want := if limit < avail then limit else avail;
      if Plain(e) {
        st, out := ReadPlain(e, pos, want);
      } else {
        st, out, cache' := ReadPacked(e, pos, want, cache);
      }
    }

    /** obmafs3_read_file_data, on any file, with holes or not. It fails exactly if some position of the range lies in
        no extent, or in one that cannot be read; else each byte is the one that its extent shows. A file that holds
        `content` reads as its bytes, up to the file size. */
    method ReadFile(ino: nat, offset: nat, size: nat, ghost content: Option<seq<Block>>)
      returns (st: Status, buf: Bytes)
      requires Valid() && ino < |files|
      requires content.Some? ==> Holds(device, codec, bs, files[ino], content.value)
      ensures st == Ok || st == Io
      ensures st == Ok ==> |buf| == ReadSize(offset, size, files[ino].size)
      ensures st == Io <==> exists pos ::
        offset <= pos < offset + size && pos < files[ino].size
        && !Served(device, codec, bs, Collect(files[ino]), offset, pos)
      ensures st == Ok ==> BytesShown(device, codec, bs, Collect(files[ino]), offset, buf)
      ensures st == Ok ==> |buf| <= size && (|buf| < size ==> offset + |buf| >= files[ino].size)
      ensures st == Ok ==> forall pos | offset <= pos < offset + size && pos < files[ino].size ::
        !Finds(Collect(files[ino]), BlockAt(pos, bs), None)
      ensures content.Some? ==> st == Ok && files[ino].size <= |Join(content.value)|
      ensures content.Some? && offset <= files[ino].size ==>
        buf == FileBytes(content.value, files[ino].size)[offset..offset + ReadSize(offset, size, files[ino].size)]
    {
      FileParts(files[ino], bs);
      hide Balanced, Lossless, Pow256, Join, Shows, Covers, ExtShows, AllSized, Collect, Finds, CacheOk, FileOk, AllOk,
           Sorted, CeilDiv, Available, In, Plain, Served, Serves, LastPacked, BytesShown, PassedTo;
      buf := [];
      var f := files[ino];
      if content.Some? {
        HeldSize(content.value, bs, f.size);
        forall pos | offset <= pos < f.size ensures Served(device, codec, bs, Collect(f), offset, pos) {
          HeldServed(device, codec, bs, f, content.value, offset, pos);
        }
      }
      NoBytes(device, codec, bs, Collect(f), offset);
      if offset >= f.size {
        return Ok, [];
      }
      var total := if offset + size > f.size then f.size - offset else size;
      st, buf := ReadRange(f, offset, total, Collect(f));
      forall pos | offset <= pos < f.size && Finds(Collect(f), BlockAt(pos, bs), None)
        ensures !Served(device, codec, bs, Collect(f), offset, pos)
      {
        NothingFound(device, codec, bs, Collect(f), offset, pos);
      }
      if st == Ok && content.Some? {
        HeldBytes(device, codec, bs, f, content.value, offset, buf);
      }
    }

    /** Finds the extent of a position and reads what it provides. */
    method ReadNext(f: File, pos: nat, limit: nat, cache: Cache, ghost list: seq<Ext>, ghost start: nat, ghost i: nat)
      returns (st: Status, out: Bytes, cache': Cache)
      requires Mounted() && list == Collect(f) && AllOk(list) && Sorted(list) && limit > 0
      requires Reading(device, codec, bs, list, start, pos, i, cache)
      ensures st == Ok || st == Io
      ensures st == Ok ==> 0 < |out| <= limit && i < |list|
      ensures st == Ok ==> BytesShown(device, codec, bs, list, pos, out)
      ensures st == Ok ==> AllServed(device, codec, bs, list, start, pos, pos + |out|)
      ensures st == Ok && |out| < limit ==> Reading(device, codec, bs, list, start, pos + |out|, i + 1, cache')
      ensures st == Io ==> !AllServed(device, codec, bs, list, start, pos, pos + limit)
    {
      hide AllSized, Collect, Finds, CacheOk, CacheIs, AllOk, Sorted, Available, In, Plain, Served, LastPacked, Reading,
           ByteOf, MissingAt, Unpacks, Hits;
      out, cache' := [], cache;
      var r := FindExtent(f, BlockAt(pos, bs));
      if r.None? {
        NothingFound(device, codec, bs, list, start, pos);
        return Io, [], cache;
      }
      AtExtent(device, codec, bs, list, start, i, pos, cache, r.value);
      st, out, cache' := ReadSome(r.value, pos, limit, cache);
      if st != Ok {
        ReadFailed(device, codec, bs, list, start, i, pos, limit, cache);
        return Io, [], cache;
      }
      ReadServed(device, codec, bs, list, start, i, pos, out, cache);
      ShownMore(device, codec, bs, list, pos, [], i, out);
      if |out| < limit {
        ReadOn(device, codec, bs, list, start, i, pos, cache, cache');
      }
    }

    /** The loop over the extents of the range. */
    method ReadRange(f: File, offset: nat, total: nat, ghost list: seq<Ext>) returns (st: Status, buf: Bytes)
      requires bs > 0 && Mounted() && list == Collect(f) && AllOk(list) && Sorted(list)
      ensures st == Ok || st == Io
      ensures st == Ok ==> |buf| == total && BytesShown(device, codec, bs, list, offset, buf)
      ensures st == Io <==> !AllServed(device, codec, bs, list, offset, offset, offset + total)
    {
      hide *;
      buf := [];
      var cache := Empty;
      ghost var i: nat;
      i := StartReading(device, codec, bs, list, offset);
      NoBytes(device, codec, bs, list, offset);
      ServedParts(device, codec, bs, list, offset, offset, offset, offset);
      while |buf| < total
        invariant |buf| <= total && BytesShown(device, codec, bs, list, offset, buf)
        invariant AllServed(device, codec, bs, list, offset, offset, offset + |buf|)
        invariant |buf| < total ==> Reading(device, codec, bs, list, offset, offset + |buf|, i, cache)
        decreases total - |buf|
      {
        var out;
        st, out, cache := ReadNext(f, offset + |buf|, total - |buf|, cache, list, offset, i);
        if st != Ok {
          ServedParts(device, codec, bs, list, offset, offset, offset + |buf|, offset + total);
          return Io, [];
        }
        ServedParts(device, codec, bs, list, offset, offset, offset + |buf|, offset + |buf| + |out|);
        ShownParts(device, codec, bs, list, offset, buf, out);
        buf := buf + out;
        i := i + 1;
      }
      st := Ok;
    }
  }
}
