/** Runs from empty files to the files on which writes, clones and truncations lose blocks. */
module VolumeLosses {
  import opened Blocks
  import opened Extents
  import opened Cuts
  import opened Coalescing
  import opened FileLayout
  import opened FileContent
  import opened FileWrites
  import opened FileAppends
  import opened FileClone
  import opened FileRead
  import opened GroupRewrites
  import opened WriteSafety
  import opened Refcounts
  import opened Volumes
  import opened VolumeRuns
  import opened VolumeCounts

  /** A full group that compression stores in fewer blocks. */
  ghost predicate Shrinks(c: Codec, a: Algo, bs: nat, x: seq<Block>)
    requires bs > 0
  {
    |x| == GROUP && StoredBlocks(c, a, x, bs) < GROUP
  }

  // ----- appending whole blocks

  /** The groups that whole blocks touch. */
  lemma {:induction false} TouchedWhole(bs: nat, size: nat, at: nat, n: nat)
    requires bs > 0 && n > 0
    ensures n * bs > 0 && (at + n) * bs == at * bs + n * bs
    ensures TouchedBy(bs, at * bs, n * bs, size * bs)
      == Touched(size, if at + n > size then at + n else size, at / GROUP, (at + n - 1) / GROUP)
    ensures PureAppend(size * bs, at * bs, bs)
      <==> at >= size && (size == 0 || at / GROUP >= CeilDiv(size, GROUP))
  {
    MoreTimes(at + n, size, bs);
    MoreTimes(size, at, bs);
    CeilOfMultiple(size, bs);
    CeilOfMultiple(at + n, bs);
    DivModUnique(at * bs, bs, at, 0);
    assert at * bs + n * bs - 1 == (at + n - 1) * bs + (bs - 1);
    DivModUnique(at * bs + n * bs - 1, bs, at + n - 1, bs - 1);
  }

  lemma {:induction false} MoreTimes(a: nat, b: nat, bs: nat)
    requires bs > 0
    ensures a * bs > b * bs <==> a > b
  {
    if a > b {
      assert a * bs == b * bs + (a - b) * bs;
    } else {
      assert b * bs == a * bs + (b - a) * bs;
    }
  }

  lemma {:induction false} SameJoin(a: seq<Block>, b: seq<Block>, bs: nat)
    requires bs > 0 && AllSized(a, bs) && AllSized(b, bs) && Join(a) == Join(b)
    ensures a == b
  {
    SplitJoin(a, bs);
    SplitJoin(b, bs);
  }

  /** Writing whole blocks at the end appends them to the content. */
  lemma {:induction false} AppendedWhole(content: seq<Block>, x: seq<Block>, bs: nat)
    requires bs > 0 && AllSized(content, bs) && AllSized(x, bs)
    ensures |Join(x)| == |x| * bs
    ensures Written(content, |content| + |x|, bs, |content| * bs, Join(x)) == content + x
  {
    hide OverlayBlocks, Join;
    var zeros := seq(|x|, _ => Zeros(bs));
    var at, y := |content| * bs, OverlayBlocks(zeros, |content| * bs, |content| * bs, Join(x));
    assert Extended(content, |content| + |x|, bs) == content + zeros;
    JoinLength(content, bs);
    JoinLength(zeros, bs);
    JoinLength(x, bs);
    OverlayBlocksConcat(content, zeros, 0, at, Join(x));
    OverlayOutside(content, 0, at, Join(x));
    OverlayJoin(zeros, at, at, Join(x));
    assert Overlay(Join(zeros), at, at, Join(x)) == Join(x);
    SameJoin(y, x, bs);
  }

  /** The groups touched by an append of n blocks to a file of k blocks. */
  function Tail(k: nat, n: nat): Touched
    requires n > 0
  {
    Touched(k, k + n, k / GROUP, (k + n - 1) / GROUP)
  }

  /** Appends whole blocks to a file of whole groups: each group becomes an extent behind the existing ones. */
  method AppendBlocks(v: Volume, ino: nat, x: seq<Block>, algo: Algo, ghost content: seq<Block>)
    returns (st: Status, ghost news: seq<Ext>)
    requires v.Valid() && ino < |v.files| && x != [] && AllSized(x, v.bs)
    requires Holds(v.device, v.codec, v.bs, v.files[ino], content)
    requires v.files[ino].size == |content| * v.bs && |content| % GROUP == 0
    modifies v
    ensures v.Outcome(st, true)
    ensures st == Ok ==>
      v.Valid() && OnlyFile(old(v.files), v.files, ino) && SameOn(old(v.device), v.device, Others(old(v.files), ino))
    ensures st == Ok ==> v.files[ino].size == (|content| + |x|) * v.bs
    ensures st == Ok ==> Holds(v.device, v.codec, v.bs, v.files[ino], content + x)
    ensures st == Ok ==> Collect(v.files[ino]) == Collect(old(v.files)[ino]) + news
    ensures st == Ok ==> var t := Tail(|content|, |x|); GroupShape(news, t, t.last + 1)
    ensures st == Ok ==> AllPacked(v.codec, algo, v.bs, news, content + x)
  {
    hide Volume.Valid, Holds, Collect, SameOn, Others, GroupShape, AllPacked, TouchedBy, PureAppend, Join, Extended,
         OverlayBlocks, KeepsGapless, Gapless, AllSized;
    news := [];
    AppendParts(v, ino, content);
    TouchedWhole(v.bs, |content|, |content|, |x|);
    AppendedWhole(content, x, v.bs);
    CeilOfMultiple(|content| + |x|, v.bs);
    HoldsPresents(v.device, v.codec, v.bs, v.files[ino], content);
    st := v.WriteFile(ino, v.files[ino].size, Join(x), algo, Some(content));
    if st == Ok {
      news :| WroteGroups(v.codec, algo, v.bs, old(v.files)[ino], v.files[ino], content, |content| * v.bs, Join(x),
                          news);
    }
  }

  lemma {:induction false} AppendParts(v: Volume, ino: nat, content: seq<Block>)
    requires v.Valid() && ino < |v.files| && Holds(v.device, v.codec, v.bs, v.files[ino], content)
    ensures v.bs > 0 && AllSized(content, v.bs)
  {
  }

  lemma {:induction false} EmptyHolds(dev: Device, c: Codec, bs: nat)
    requires bs > 0
    ensures Holds(dev, c, bs, EMPTY_FILE, []) && Collect(EMPTY_FILE) == [] && EMPTY_FILE.size == 0
  {
    ClearedCollect(EMPTY_FILE);
  }

  /** An append within one group adds one extent. */
  lemma {:induction false} OneGroup(c: Codec, a: Algo, bs: nat, news: seq<Ext>, content: seq<Block>, x: seq<Block>)
    requires bs > 0 && |content| % GROUP == 0 && 0 < |x| <= GROUP
    requires var t := Tail(|content|, |x|); GroupShape(news, t, t.last + 1)
    requires AllPacked(c, a, bs, news, content + x)
    ensures |news| == 1 && news[0] == Ext(|content|, |x|, news[0].ps, StoredBlocks(c, a, x, bs)) && ExtOk(news[0])
  {
    hide StoredBlocks;
    var k, n := |content|, |x|;
    assert Tail(k, n).first == Tail(k, n).last == k / GROUP;
    assert PackedAs(c, a, bs, news[0], content + x);
    assert news[1..] == [] && Covers(news[1..], End(news[0]), k + n);
    assert (content + x)[k..k + n] == x;
  }

  // ----- a write that loses a block

  /** Appends to an empty file within one group. */
  method FirstBlocks(v: Volume, ino: nat, x: seq<Block>, algo: Algo) returns (st: Status, ghost q: Lba)
    requires v.Valid() && ino < |v.files| && v.files[ino] == EMPTY_FILE && 0 < |x| <= GROUP && AllSized(x, v.bs)
    modifies v
    ensures v.Outcome(st, true)
    ensures st == Ok ==>
      v.Valid() && OnlyFile(old(v.files), v.files, ino) && SameOn(old(v.device), v.device, Others(old(v.files), ino))
    ensures st == Ok ==> v.files[ino].size == |x| * v.bs && Holds(v.device, v.codec, v.bs, v.files[ino], x)
    ensures st == Ok ==> Collect(v.files[ino]) == [Ext(0, |x|, q, StoredBlocks(v.codec, algo, x, v.bs))]
  {
    hide Volume.Valid, Holds, Collect, SameOn, Others, GroupShape, AllPacked, AllSized, StoredBlocks;
    q := 0;
    ghost var news;
    BlockSize(v);
    EmptyHolds(v.device, v.codec, v.bs);
    st, news := AppendBlocks(v, ino, x, algo, []);
    if st == Ok {
      OneGroup(v.codec, algo, v.bs, news, [], x);
      assert [] + x == x;
      q := news[0].ps;
    }
  }

  lemma {:induction false} BlockSize(v: Volume)
    requires v.Valid()
    ensures v.bs > 0
  {
  }

  // ----- cloning a compressed group behind the end of a file

  /** The shared clone of a whole group. */
  lemma {:induction false} GroupShared(q: Lba, n: nat, at: nat)
    requires n != GROUP
    ensures SharedClones([Ext(0, GROUP, q, n)], Shift(0, at, GROUP)) == [Ext(at, GROUP, q, n)]
    ensures AllShareable([Ext(0, GROUP, q, n)], Shift(0, at, GROUP))
  {
    var list, h := [Ext(0, GROUP, q, n)], Shift(0, at, GROUP);
    assert list[..0] == [] && SharedClones(list[..0], h) == [];
    assert SharedPart(list[0], h) == Ext(at, GROUP, q, n);
  }

  lemma {:induction false} OneCovers(e: Ext)
    requires e.lc > 0
    ensures Covers([e], e.ls, End(e))
  {
    assert [e][1..] == [];
  }

  /** A compressed extent never merges. */
  lemma {:induction false} PushedGroup(list: seq<Ext>, e: Ext)
    requires Maximal(list) && !Plain(e)
    ensures Coalesce(list + [e]) == list + [e]
  {
    Settled(list);
    assert (list + [e])[..|list|] == list;
  }

  /** The extents of the destination with a compressed group behind them. */
  lemma {:induction false} ClonedBehind(src: File, dst: File, dst': File, q: Lba, n: nat, at: nat)
    requires 0 < n < GROUP && Collect(src) == [Ext(0, GROUP, q, n)]
    requires AllOk(Collect(dst)) && Covers(Collect(dst), 0, at) && Maximal(Collect(dst))
    requires SharedInto(src, dst, dst', Shift(0, at, GROUP))
    ensures Collect(dst') == Collect(dst) + [Ext(at, GROUP, q, n)] && CutsNone(Shift(0, at, GROUP), Collect(dst))
  {
    hide Collect, Stores, SharedClones, Covers, Maximal, Coalesce, KeepLeft, KeepRight;
    var list, e := Collect(dst), Ext(at, GROUP, q, n);
    GroupShared(q, n, at);
    CoversBounds(list, 0, at);
    AllLeft(list, at);
    NoneRight(list, at + GROUP);
    assert NewList(list, [e], Shift(0, at, GROUP)) == list + [e];
    PushedGroup(list, e);
    OneCovers(e);
    CoversConcat(list, [e], 0, at, at + GROUP);
    StoreRoundTrip(dst', list + [e], at + GROUP);
  }

  /** Clones a file that is one compressed group behind the last block of another. */
  method CloneGroup(v: Volume, src: nat, dst: nat, ghost x: seq<Block>, ghost q: Lba, ghost n: nat,
                    ghost cd: seq<Block>)
    returns (st: Status)
    requires v.Valid() && src < |v.files| && dst < |v.files| && src != dst && 0 < n < GROUP
    requires Collect(v.files[src]) == [Ext(0, GROUP, q, n)] && Maximal(Collect(v.files[dst]))
    requires Holds(v.device, v.codec, v.bs, v.files[src], x) && |x| == GROUP
    requires Holds(v.device, v.codec, v.bs, v.files[dst], cd) && v.files[dst].size == |cd| * v.bs
    modifies v
    ensures v.Outcome(st, true)
    ensures st == Ok ==> v.Valid() && OnlyFile(old(v.files), v.files, dst)
    ensures st == Ok ==> v.files[dst].size == (|cd| + GROUP) * v.bs
    ensures st == Ok ==> Collect(v.files[dst]) == Collect(old(v.files)[dst]) + [Ext(|cd|, GROUP, q, n)]
    ensures st == Ok ==> Holds(v.device, v.codec, v.bs, v.files[dst], cd + x)
  {
    hide Volume.Valid, Holds, Collect, SameOn, Total, AllShareable, SharedInto, Maximal, Gapless, CutsNone, InStep,
         Aligned, AllSized, Shows, Covers, CeilDiv;
    BlockSize(v);
    ShiftBehind(|cd|, v.bs);
    StoredSome(v, dst);
    HeldParts(v.device, v.codec, v.bs, v.files[dst], cd);
    GroupShared(q, n, |cd|);
    ghost var src0, dst0 := v.files[src], v.files[dst];
    HoldsPresents(v.device, v.codec, v.bs, v.files[src], x);
    HoldsPresents(v.device, v.codec, v.bs, v.files[dst], cd);
    st := v.CloneRange(src, 0, dst, v.files[dst].size, GROUP * v.bs, x, Some(cd));
    if st == Ok {
      ClonedBehind(src0, dst0, v.files[dst], q, n, |cd|);
      assert ClonedContent(cd, x, Shift(0, |cd|, GROUP)) == cd + x;
    }
  }

  lemma {:induction false} ShiftBehind(k: nat, bs: nat)
    requires bs > 0
    ensures ShiftFor(0, k * bs, GROUP * bs, bs) == Shift(0, k, GROUP)
    ensures k * bs % bs == 0 && GROUP * bs % bs == 0 && GROUP * bs > 0 && 0 % bs == 0
    ensures k * bs + GROUP * bs == (k + GROUP) * bs
  {
    DivModUnique(k * bs, bs, k, 0);
    DivModUnique(GROUP * bs, bs, GROUP, 0);
    DivModUnique(0, bs, 0, 0);
  }

  // ----- a write that loses a block

  /** From two empty files: write a group that compresses to one, a block to the other, and clone the group behind
      the block. */
  method MakeShifted(v: Volume, src: nat, dst: nat, x: seq<Block>, y: Block, algo: Algo)
    returns (st: Status, ghost p: Lba, ghost q: Lba)
    requires v.Valid() && src < |v.files| && dst < |v.files| && src != dst
    requires v.files[src] == v.files[dst] == EMPTY_FILE
    requires AllSized(x, v.bs) && |y| == v.bs && Shrinks(v.codec, algo, v.bs, x)
    modifies v
    ensures v.Outcome(st, true)
    ensures st == Ok ==> v.Valid() && |v.files| == |old(v.files)| && v.files[dst].size == 17 * v.bs
    ensures st == Ok ==> Collect(v.files[dst]) == Shifted(p, q, StoredBlocks(v.codec, algo, x, v.bs))
    ensures st == Ok ==> Holds(v.device, v.codec, v.bs, v.files[dst], [y] + x)
  {
    hide Volume.Valid, Holds, Collect, SameOn, Others, StoredBlocks;
    p, q := 0, 0;
    BlockSize(v);
    st, q := FirstBlocks(v, src, x, algo);
    if st != Ok {
      return;
    }
    ghost var files1, dev1 := v.files, v.device;
    st, p := FirstBlocks(v, dst, [y], algo);
    if st != Ok {
      return;
    }
    OtherUnchanged(dev1, v.device, v.codec, v.bs, files1, dst, src, x);
    OneBlock(v.codec, algo, [y], v.bs);
    StoredSome(v, src);
    assert ExtOk(Collect(v.files[src])[0]);
    st := CloneGroup(v, src, dst, x, q, StoredBlocks(v.codec, algo, x, v.bs), [y]);
  }

  lemma {:induction false} OneBlock(c: Codec, a: Algo, x: seq<Block>, bs: nat)
    requires bs > 0 && |x| == 1
    ensures StoredBlocks(c, a, x, bs) == 1
  {
  }

  /** Extents are never empty. */
  lemma {:induction false} StoredSome(v: Volume, ino: nat)
    requires v.Valid() && ino < |v.files|
    ensures AllOk(Collect(v.files[ino]))
  {
    assert FileOk(v.files[ino], v.bs);
  }

  /** Reading the whole of a file with a hole fails. */
  method ReadHole(v: Volume, ino: nat) returns (st: Status, buf: Bytes)
    requires v.Valid() && ino < |v.files| && !Gapless(v.files[ino], v.bs)
    ensures st == Io
  {
    var f := v.files[ino];
    assert FileOk(f, v.bs);
    ghost var n := CeilDiv(f.size, v.bs);
    ghost var b := GapFound(Collect(f), 0, n);
    CeilDivBounds(f.size, v.bs);
    BlockStart(b, n, f.size, v.bs);
    st, buf := v.ReadFile(ino, 0, f.size, None);
    assert Finds(Collect(f), BlockAt(b * v.bs, v.bs), None);
  }

  lemma {:induction false} BlockStart(b: nat, n: nat, size: nat, bs: nat)
    requires bs > 0 && b < n && n * bs < size + bs
    ensures b * bs < size && BlockAt(b * bs, bs) == b
  {
    WholeBlocks(b, bs);
    LessTimes(b + 1, n, bs);
    assert (b + 1) * bs == b * bs + bs;
  }

  /** Then any write within the first group leaves a hole. */
  method LoseBlockRun(v: Volume, src: nat, dst: nat, x: seq<Block>, y: Block, algo: Algo, offset: nat, buf: Bytes)
    returns (st: Status)
    requires v.Valid() && src < |v.files| && dst < |v.files| && src != dst
    requires v.files[src] == v.files[dst] == EMPTY_FILE
    requires AllSized(x, v.bs) && |y| == v.bs && Shrinks(v.codec, algo, v.bs, x)
    requires |buf| > 0 && offset + |buf| <= 16 * v.bs
    modifies v
    ensures v.Outcome(st, true)
    ensures st == Ok ==> v.Valid() && dst < |v.files| && v.files[dst].size == 17 * v.bs && !Gapless(v.files[dst], v.bs)
  {
    hide Volume.Valid, Holds, Collect, StoredBlocks, Gapless;
    BlockSize(v);
    ghost var p, q;
    st, p, q := MakeShifted(v, src, dst, x, y, algo);
    if st == Ok {
      st := LoseBlock(v, dst, p, q, StoredBlocks(v.codec, algo, x, v.bs), offset, buf, algo, [y] + x);
    }
  }

  // ----- a clone that loses blocks

  /** From two empty files: write blocks to one and a group that compresses to the other, and clone four blocks into
      the middle of the group. */
  method LoseGroupRun(v: Volume, src: nat, dst: nat, x: seq<Block>, y: seq<Block>, algo: Algo) returns (st: Status)
    requires v.Valid() && src < |v.files| && dst < |v.files| && src != dst
    requires v.files[src] == v.files[dst] == EMPTY_FILE
    requires AllSized(x, v.bs) && AllSized(y, v.bs) && Shrinks(v.codec, algo, v.bs, x) && 4 <= |y| <= GROUP
    modifies v
    ensures v.Outcome(st, true)
    ensures st == Ok ==> v.Valid() && dst < |v.files| && v.files[dst].size == 16 * v.bs && !Gapless(v.files[dst], v.bs)
  {
    hide Volume.Valid, Holds, Collect, SameOn, Others, StoredBlocks, Gapless;
    BlockSize(v);
    ghost var p, q;
    st, p := FirstBlocks(v, src, y, algo);
    if st != Ok {
      return;
    }
    ghost var files1, dev1 := v.files, v.device;
    st, q := FirstBlocks(v, dst, x, algo);
    if st != Ok {
      return;
    }
    OtherUnchanged(dev1, v.device, v.codec, v.bs, files1, dst, src, y);
    LessTimes(4, |y|, v.bs);
    st := LoseGroup(v, src, dst, q, StoredBlocks(v.codec, algo, x, v.bs), y, x);
  }

  // ----- a truncation that leads to lost references

  /** Every group of the blocks compresses. */
  ghost predicate AllShrink(c: Codec, a: Algo, bs: nat, y: seq<Block>)
    requires bs > 0
  {
    forall g: nat {:trigger y[g * GROUP..(g + 1) * GROUP]} | (g + 1) * GROUP <= |y| ::
      Shrinks(c, a, bs, y[g * GROUP..(g + 1) * GROUP])
  }

  /** Each extent of a gapless list ends where the next one starts. */
  lemma {:induction false} NextStarts(list: seq<Ext>, from: nat, to: nat, i: nat)
    requires Covers(list, from, to) && i < |list|
    ensures End(list[i]) == if i + 1 < |list| then list[i + 1].ls else to
  {
    if i == 0 {
      assert |list| > 1 ==> list[1..][0] == list[1];
    } else {
      NextStarts(list[1..], End(list[0]), to, i - 1);
    }
  }

  /** Eight groups that compress fill the inline slots with compressed extents. */
  lemma {:induction false} EightGroups(c: Codec, a: Algo, bs: nat, news: seq<Ext>, y: seq<Block>)
    requires bs > 0 && |y| == 128 && AllShrink(c, a, bs, y)
    requires GroupShape(news, Tail(0, 128), 8) && AllPacked(c, a, bs, news, [] + y)
    ensures |news| == INLINE && Covers(news, 0, 128) && AllOk(news)
    ensures forall i | 0 <= i < INLINE :: !Plain(news[i])
  {
    hide StoredBlocks;
    assert [] + y == y;
    forall i | 0 <= i < INLINE ensures !Plain(news[i]) {
      NextStarts(news, 0, 128, i);
      assert PackedAs(c, a, bs, news[i], y);
      assert Shrinks(c, a, bs, y[i * GROUP..(i + 1) * GROUP]);
    }
  }

  /** No extent merges with a compressed one before it. */
  lemma {:induction false} MaximalBehind(inl: seq<Ext>, rest: seq<Ext>)
    requires (forall i | 0 <= i < |inl| :: !Plain(inl[i])) && Maximal(rest)
    ensures Maximal(inl + rest)
  {
    var list := inl + rest;
    forall i {:trigger MergeableAt(list, i)} | 0 <= i < |list| - 1 ensures !MergeableAt(list, i) {
      if i < |inl| {
        assert list[i] == inl[i];
      } else {
        assert !MergeableAt(rest, i - |inl|);
      }
    }
  }

  /** From two empty files: write a group that compresses to one; eight such groups and a block to the other; clone
      the group behind them. */
  method MakeLong(v: Volume, src: nat, dst: nat, x: seq<Block>, y: seq<Block>, z: Block, algo: Algo)
    returns (st: Status, ghost inl: seq<Ext>, ghost p: Lba, ghost q: Lba)
    requires v.Valid() && src < |v.files| && dst < |v.files| && src != dst
    requires v.files[src] == v.files[dst] == EMPTY_FILE
    requires AllSized(x, v.bs) && AllSized(y, v.bs) && |z| == v.bs && |y| == 128
    requires Shrinks(v.codec, algo, v.bs, x) && AllShrink(v.codec, algo, v.bs, y)
    modifies v
    ensures v.Outcome(st, true)
    ensures st == Ok ==> v.Valid() && |v.files| == |old(v.files)| && v.files[dst].size == 145 * v.bs
    ensures st == Ok ==> |inl| == INLINE && Covers(inl, 0, 128) && AllOk(inl)
    ensures st == Ok ==> forall i | 0 <= i < INLINE :: !Plain(inl[i])
    ensures st == Ok ==>
      Collect(v.files[dst]) == inl + [Ext(128, 1, p, 1)] + [Ext(129, GROUP, q, StoredBlocks(v.codec, algo, x, v.bs))]
    ensures st == Ok ==> Holds(v.device, v.codec, v.bs, v.files[dst], y + [z] + x)
  {
    hide Volume.Valid, Holds, Collect, SameOn, Others, StoredBlocks, AllSized, GroupShape, AllPacked, Covers, AllShrink,
         Maximal;
    inl, p, q := [], 0, 0;
    BlockSize(v);
    st, q := FirstBlocks(v, src, x, algo);
    if st != Ok {
      return;
    }
    ghost var files1, dev1 := v.files, v.device;
    EmptyHolds(v.device, v.codec, v.bs);
    st, inl := AppendBlocks(v, dst, y, algo, []);
    if st != Ok {
      return;
    }
    OtherUnchanged(dev1, v.device, v.codec, v.bs, files1, dst, src, x);
    EightGroups(v.codec, algo, v.bs, inl, y);
    assert [] + y == y && [] + inl == inl;
    ghost var files2, dev2 := v.files, v.device;
    ghost var news;
    SingleSized(z);
    st, news := AppendBlocks(v, dst, [z], algo, y);
    if st != Ok {
      return;
    }
    OtherUnchanged(dev2, v.device, v.codec, v.bs, files2, dst, src, x);
    OneGroup(v.codec, algo, v.bs, news, y, [z]);
    OneBlock(v.codec, algo, [z], v.bs);
    p := news[0].ps;
    assert news == [Ext(128, 1, p, 1)];
    OneMaximal(news);
    MaximalBehind(inl, news);
    StoredSome(v, src);
    assert ExtOk(Collect(v.files[src])[0]);
    st := CloneGroup(v, src, dst, x, q, StoredBlocks(v.codec, algo, x, v.bs), y + [z]);
  }

  lemma {:induction false} SingleSized(z: Block)
    ensures AllSized([z], |z|)
  {
  }

  lemma {:induction false} OneMaximal(list: seq<Ext>)
    requires |list| == 1
    ensures Maximal(list)
  {
  }

  /** Cutting out group 9 drops the clone that starts before it. */
  lemma {:induction false} StrayRebuilt(inl: seq<Ext>, p: Lba, q: Lba, n: nat, r: Lba)
    requires Covers(inl, 0, 128) && n != GROUP
    ensures Rebuilt(inl + [Ext(128, 1, p, 1)] + [Ext(129, GROUP, q, n)], [Ext(144, GROUP, r, GROUP)], 144, 160)
      == inl + StrayOver(p, r, 16)
  {
    hide KeepLeft, KeepRight, Covers;
    var a, b := inl + [Ext(128, 1, p, 1)], [Ext(129, GROUP, q, n)];
    CoversBounds(inl, 0, 128);
    KeepConcat(a, b, 144);
    KeepConcat(a, b, 160);
    AllLeft(a, 144);
    NoneRight(a, 160);
    NoneRight(b, 160);
    CloneDropped(q, n);
  }

  lemma {:induction false} CloneDropped(q: Lba, n: nat)
    requires n != GROUP
    ensures KeepLeft([Ext(129, GROUP, q, n)], 144) == []
  {
    assert [Ext(129, GROUP, q, n)][1..] == [];
  }

  lemma {:induction false} StrayMaximal(p: Lba, r: Lba)
    ensures Maximal(StrayOver(p, r, 16))
  {
  }

  lemma {:induction false} SlotsAre(list: seq<Ext>, inl: seq<Ext>)
    requires |inl| == INLINE <= |list| && list[..INLINE] == inl
    ensures |StoredSlots(list)| == INLINE && forall i | 0 <= i < INLINE :: StoredSlots(list)[i] == RunOf(inl[i])
  {
  }

  /** What rewriting group 9 leaves of that file. */
  lemma {:induction false} StraysAfter(f: File, f': File, bs: nat, inl: seq<Ext>, p: Lba, q: Lba, n: nat, r: Lba)
    requires |inl| == INLINE && Covers(inl, 0, 128) && AllOk(inl) && n != GROUP
    requires forall i | 0 <= i < INLINE :: !Plain(inl[i])
    requires Collect(f) == inl + [Ext(128, 1, p, 1)] + [Ext(129, GROUP, q, n)] && f'.size == 160 * bs
    requires Stores(f', Coalesce(Rebuilt(Collect(f), [Ext(144, GROUP, r, GROUP)], 144, 160)))
    ensures Straying(f', bs, p, r)
  {
    hide Collect, Covers, Rebuilt, Coalesce, Maximal, InlineExts, StoredSlots;
    var list := inl + StrayOver(p, r, 16);
    StrayRebuilt(inl, p, q, n, r);
    StrayMaximal(p, r);
    MaximalBehind(inl, StrayOver(p, r, 16));
    Settled(list);
    assert list[..INLINE] == inl && list[INLINE..] == StrayOver(p, r, 16);
    SlotsAre(list, inl);
    InlineRuns(f'.slots, inl, 0);
    AbutCovered(inl, 0, 128);
  }

  /** Then rewrite group 9, uncompressed: the file strays. */
  method MakeStraying(v: Volume, src: nat, dst: nat, x: seq<Block>, y: seq<Block>, z: Block, w: seq<Block>, algo: Algo)
    returns (st: Status, ghost p: Lba, ghost r: Lba)
    requires v.Valid() && src < |v.files| && dst < |v.files| && src != dst
    requires v.files[src] == v.files[dst] == EMPTY_FILE
    requires AllSized(x, v.bs) && AllSized(y, v.bs) && |z| == v.bs && |y| == 128 && AllSized(w, v.bs) && |w| == GROUP
    requires Shrinks(v.codec, algo, v.bs, x) && AllShrink(v.codec, algo, v.bs, y)
    modifies v
    ensures v.Outcome(st, true)
    ensures st == Ok ==> v.Valid() && |v.files| == |old(v.files)| && Straying(v.files[dst], v.bs, p, r)
  {
    hide Volume.Valid, Holds, Collect, SameOn, Others, StoredBlocks, AllSized, GroupShape, AllPacked, Covers, AllShrink,
         Stores, Coalesce, Rebuilt, Straying, TouchedBy, PureAppend, Gapless, KeepsGapless, WriteSafe, Overwritten,
         Extended, OverlayBlocks, Join;
    BlockSize(v);
    ghost var inl, q;
    r := 0;
    st, inl, p, q := MakeLong(v, src, dst, x, y, z, algo);
    if st != Ok {
      return;
    }
    ghost var f := v.files[dst];
    TouchedWhole(v.bs, 145, 144, 16);
    JoinLength(w, v.bs);
    HoldsPresents(v.device, v.codec, v.bs, v.files[dst], y + [z] + x);
    st := v.WriteFile(dst, 144 * v.bs, Join(w), Off, Some(y + [z] + x));
    if st == Ok {
      ghost var news: seq<Ext> :| WroteGroups(v.codec, Off, v.bs, f, v.files[dst], y + [z] + x, 144 * v.bs, Join(w),
        news);
      OnePlain(v.codec, v.bs, news,
        Overwritten(Collect(f), Extended(y + [z] + x, 160, v.bs), Touched(145, 160, 9, 9), v.bs, 144 * v.bs, Join(w)));
      r := news[0].ps;
      assert news == [Ext(144, GROUP, r, GROUP)];
      StraysAfter(f, v.files[dst], v.bs, inl, p, q, StoredBlocks(v.codec, algo, x, v.bs), r);
    }
  }

  /** Without compression the rewritten group is one plain extent. */
  lemma {:induction false} OnePlain(c: Codec, bs: nat, news: seq<Ext>, content: seq<Block>)
    requires bs > 0 && GroupShape(news, Touched(145, 160, 9, 9), 10) && AllPacked(c, Off, bs, news, content)
    ensures |news| == 1 && news[0] == Ext(144, GROUP, news[0].ps, GROUP)
  {
    assert news[1..] == [] && Covers(news[1..], End(news[0]), 160);
    assert PackedAs(c, Off, bs, news[0], content);
  }

  /** Then truncate to 144 blocks and append at the end: blocks stay marked as used that nothing refers to. */
  method LoseReferencesRun(v: Volume, src: nat, dst: nat, x: seq<Block>, y: seq<Block>, z: Block, w: seq<Block>,
                           algo: Algo, buf: Bytes)
    returns (st: Status)
    requires v.Valid() && src < |v.files| && dst < |v.files| && src != dst && |buf| > 0
    requires v.files[src] == v.files[dst] == EMPTY_FILE
    requires AllSized(x, v.bs) && AllSized(y, v.bs) && |z| == v.bs && |y| == 128 && AllSized(w, v.bs) && |w| == GROUP
    requires Shrinks(v.codec, algo, v.bs, x) && AllShrink(v.codec, algo, v.bs, y)
    modifies v
    ensures v.Outcome(st, false)
    ensures st == Ok ==> v.Mounted() && !Balanced(v.used, v.refs, v.reserved, Total(v.files))
  {
    hide Volume.Valid, Balanced, Straying, AllShrink, Shrinks, AllSized, Total;
    ghost var p, r;
    st, p, r := MakeStraying(v, src, dst, x, y, z, w, algo);
    if st == Ok {
      st := LoseReferences(v, dst, p, r, buf, algo);
    }
  }
}
