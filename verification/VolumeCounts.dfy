/** Refcounts over arbitrary runs, and the runs on which the code loses count or content. */
module VolumeCounts {
  import opened Blocks
  import opened Extents
  import opened Cuts
  import opened Coalescing
  import opened FileLayout
  import opened FileContent
  import opened FileWrites
  import opened FileAppends
  import opened FileTruncate
  import opened FileClone
  import opened GroupRewrites
  import opened WriteSafety
  import opened Refcounts
  import opened Volumes
  import opened VolumeRuns

  // ----- refcounts over every run

  /** The operation names existing files; writes are not empty. Nothing else is asked: writes may leave holes,
      clones may take any blocks to anywhere. */
  predicate Named(op: Op, n: nat) {
    match op
    case Write(ino, offset, buf) => ino < n && |buf| > 0
    case Truncate(ino, newsize) => ino < n
    case Clone(src, srcOffset, dst, dstOffset, length) => src < n && dst < n
    case Unlink(ino) => ino < n
  }

  /** The operation shrinks a file with gaps, and what it keeps could lie past the new end: the count of
      blocks kept takes no account of the gaps. */
  predicate Overhangs(files: seq<File>, bs: nat, op: Op)
    requires bs > 0 && Named(op, |files|)
  {
    && op.Truncate? && op.newsize < files[op.ino].size && !Gapless(files[op.ino], bs)
    && !EndsWithin(Collect(files[op.ino]), CeilDiv(op.newsize, bs))
  }

  predicate EndsWithin(list: seq<Ext>, n: nat) {
    BoundaryPlain(list, n) && Within(AfterTruncation(list, n), n)
  }

  function SizeStep(sizes: seq<nat>, bs: nat, op: Op): (r: seq<nat>)
    requires bs > 0 && Named(op, |sizes|)
    ensures |r| == |sizes|
  {
    match op
    case Write(ino, offset, buf) => sizes[ino := NewSize(sizes[ino], offset, |buf|)]
    case Truncate(ino, newsize) => sizes[ino := newsize]
    case Clone(src, srcOffset, dst, dstOffset, length) =>
      if CloneRefused(op, bs) then sizes else sizes[dst := NewSize(sizes[dst], dstOffset, length)]
    case Unlink(ino) => sizes[ino := 0]
  }

  predicate AllNamed(ops: seq<Op>, n: nat) {
    forall i | 0 <= i < |ops| :: Named(ops[i], n)
  }

  /** The sizes that a run of operations gives the files. */
  function SizesAfter(sizes: seq<nat>, bs: nat, ops: seq<Op>): (r: seq<nat>)
    requires bs > 0 && AllNamed(ops, |sizes|)
    ensures |r| == |sizes|
  {
    if ops == [] then sizes
    else SizeStep(SizesAfter(sizes, bs, ops[..|ops| - 1]), bs, ops[|ops| - 1])
  }

  function Sizes(files: seq<File>): seq<nat> {
    seq(|files|, i requires 0 <= i < |files| => files[i].size)
  }

  lemma {:induction false} OneSize(files: seq<File>, files': seq<File>, ino: nat)
    requires OnlyFile(files, files', ino)
    ensures Sizes(files') == Sizes(files)[ino := files'[ino].size]
  {
  }

  /** Every run of writes, clones, truncations and deletions keeps every refcount equal to the references and
      every bitmap bit set exactly for referenced blocks, up to the first truncation that may leave extents past
      the end of the file. */
  method RunCounts(v: Volume, ops: seq<Op>, algos: seq<Algo>) returns (st: Status, n: nat)
    requires v.Valid() && |algos| == |ops| && AllNamed(ops, |v.files|)
    modifies v
    ensures v.Outcome(st, false) && n <= |ops|
    ensures st == Ok ==> v.Valid() && v.bs > 0 && |v.files| == |old(v.files)|
    ensures st == Ok ==> Sizes(v.files) == SizesAfter(Sizes(old(v.files)), v.bs, ops[..n])
    ensures st == Ok && n < |ops| ==> Overhangs(v.files, v.bs, ops[n])
  {
    hide FileOk, Balanced, Lossless, Total, AllSized, Pow256, Gapless, SizeStep, CloneRefused;
    n, st := 0, Ok;
    while n < |ops|
      invariant n <= |ops| && v.Valid() && st == Ok && v.bs > 0 && |v.files| == |old(v.files)|
      invariant Sizes(v.files) == SizesAfter(Sizes(old(v.files)), v.bs, ops[..n])
      decreases |ops| - n
    {
      if Overhangs(v.files, v.bs, ops[n]) {
        return;
      }
      st := CountOp(v, ops[n], algos[n]);
      if st != Ok {
        return;
      }
      assert ops[..n + 1][..n] == ops[..n];
      n := n + 1;
    }
    assert ops[..n] == ops;
  }

  /** One operation; a refused clone changes nothing. */
  method CountOp(v: Volume, op: Op, algo: Algo) returns (st: Status)
    requires v.Valid() && Named(op, |v.files|) && !Overhangs(v.files, v.bs, op)
    modifies v
    ensures v.Outcome(st, false)
    ensures st == Ok ==> v.Valid() && |v.files| == |old(v.files)|
    ensures st == Ok ==> Sizes(v.files) == SizeStep(Sizes(old(v.files)), v.bs, op)
  {
    hide FileOk, Balanced, Lossless, Total, AllSized, Pow256, Gapless, Collect, CeilDiv, SameOn, Within;
    ghost var files0 := v.files;
    match op
    case Write(ino, offset, buf) =>
      st := v.WriteFile(ino, offset, buf, algo, None);
      if st == Ok {
        OneSize(files0, v.files, ino);
      }
    case Truncate(ino, newsize) =>
      var size := v.files[ino].size;
      if newsize > size {
        st := v.WriteFile(ino, size, Zeros(newsize - size), algo, None);
      } else if newsize < size {
        st := v.Shrink(ino, newsize, None);
      } else {
        st := Ok;
      }
      if st == Ok {
        OneSize(files0, v.files, ino);
      }
    case Clone(src, srcOffset, dst, dstOffset, length) =>
      st := v.CloneRange(src, srcOffset, dst, dstOffset, length, [], None);
      if st == Ok {
        OneSize(files0, v.files, dst);
      }
      st := if st == Inval then Ok else st;
    case Unlink(ino) =>
      v.Unlink(ino);
      OneSize(files0, v.files, ino);
      st := Ok;
  }

  // ----- a truncation that leads to lost references

  /** A file of 160 blocks with a hole: eight compressed groups inline, block 128, and blocks 144 to 159.
      VolumeLosses.MakeStraying is a run that leaves such a file. */
  ghost predicate Straying(f: File, bs: nat, p: Lba, q: Lba) {
    && f.size == 160 * bs && f.over == StrayOver(p, q, 16)
    && |InlineExts(f.slots, 0)| == INLINE && Covers(InlineExts(f.slots, 0), 0, 128)
    && forall i | 0 <= i < INLINE :: !Plain(InlineExts(f.slots, 0)[i])
  }

  function StrayOver(p: Lba, q: Lba, n: nat): seq<Ext> {
    [Ext(128, 1, p, 1), Ext(144, n, q, n)]
  }

  /** How such a hole comes about: cutting group 9 out of block 128 and a compressed extent that starts at
      block 129 leaves block 128 alone. */
  lemma {:induction false} CutLeavesHole(p: Lba, q: Lba, n: nat)
    requires n != 16
    ensures CutAll([Ext(128, 1, p, 1), Ext(129, 16, q, n)], 144, 160) == [Ext(128, 1, p, 1)]
  {
    var list := [Ext(128, 1, p, 1), Ext(129, 16, q, n)];
    assert list[..|list| - 1] == [Ext(128, 1, p, 1)];
    assert [Ext(128, 1, p, 1)][..0] == [];
    assert CutAll([Ext(128, 1, p, 1)], 144, 160) == [] + [Ext(128, 1, p, 1)];
  }

  lemma {:induction false} TruncatedPast(a: seq<Ext>, b: seq<Ext>, n: nat)
    requires LogicalSum(a) < n
    ensures Truncated(a + b, n) == a + Truncated(b, n - LogicalSum(a))
    ensures BoundaryPlain(a + b, n) <==> BoundaryPlain(b, n - LogicalSum(a))
    ensures LogicalSum(a + b) == LogicalSum(a) + LogicalSum(b)
  {
    if a == [] {
      assert a + b == b;
    } else {
      var l := a + b;
      assert l[0] == a[0] && l[1..] == a[1..] + b && a == [a[0]] + a[1..];
      TruncatedPast(a[1..], b, n - a[0].lc);
    }
  }

  /** A list none of whose neighbours can be merged is coalesced already. */
  lemma {:induction false} Settled(list: seq<Ext>)
    requires Maximal(list)
    ensures Coalesce(list) == list
  {
    if list != [] {
      var a := list[..|list| - 1];
      forall i {:trigger MergeableAt(a, i)} | 0 <= i < |a| - 1 ensures !MergeableAt(a, i) {
        assert !MergeableAt(list, i);
      }
      Settled(a);
      assert list == a + [list[|list| - 1]];
      if a != [] {
        assert !MergeableAt(list, |a| - 1);
      }
    }
  }

  /** Truncating to 144 blocks keeps 144 blocks, the last of which lies at 158: nothing is left of the hole
      in the count. */
  lemma {:induction false} StrayTruncated(inl: seq<Ext>, p: Lba, q: Lba)
    requires |inl| == INLINE && Covers(inl, 0, 128) && forall i | 0 <= i < INLINE :: !Plain(inl[i])
    ensures BoundaryPlain(inl + StrayOver(p, q, 16), 144)
    ensures AfterTruncation(inl + StrayOver(p, q, 16), 144) == inl + StrayOver(p, q, 15)
  {
    var over, kept := StrayOver(p, q, 16), inl + StrayOver(p, q, 15);
    SumOfCovers(inl, 0, 128);
    TruncatedPast(inl, over, 144);
    StrayTail(p, q);
    forall i {:trigger MergeableAt(kept, i)} | 0 <= i < |kept| - 1 ensures !MergeableAt(kept, i) {
      assert i < INLINE ==> kept[i] == inl[i];
    }
    Settled(kept);
    AbutCovered(inl, 0, 128);
    assert kept[..INLINE] == inl && kept[INLINE..] == StrayOver(p, q, 15);
  }

  lemma {:induction false} StrayTail(p: Lba, q: Lba)
    ensures Truncated(StrayOver(p, q, 16), 16) == StrayOver(p, q, 15)
    ensures BoundaryPlain(StrayOver(p, q, 16), 16) && LogicalSum(StrayOver(p, q, 16)) == 17
  {
    var over := StrayOver(p, q, 16);
    assert over[1..] == [Ext(144, 16, q, 16)];
    assert LogicalSum(over[1..]) == 16;
    assert Truncated(over[1..], 15) == [Ext(144, 15, q, 15)];
  }

  lemma {:induction false} InlineAtMost(slots: seq<Run>, base: nat)
    ensures |InlineExts(slots, base)| <= |slots|
    ensures (forall i | 0 <= i < |slots| :: Used(slots[i])) ==> |InlineExts(slots, base)| == |slots|
  {
    if slots != [] {
      InlineAtMost(slots[1..], base + slots[0].logical);
      InlineAtMost(slots[1..], base);
    }
  }

  lemma {:induction false} OverBehindInline(f: File, inl: seq<Ext>, over: seq<Ext>)
    requires LayoutOk(f) && Collect(f) == inl + over && |inl| == INLINE && over != []
    ensures f.over == over
  {
    InlineAtMost(f.slots, 0);
    assert |InlineExts(f.slots, 0)| + |f.over| == INLINE + |over|;
    assert |InlineExts(f.slots, 0)| == INLINE;
    assert Collect(f)[INLINE..] == over;
  }

  /** The truncation of such a file to 144 blocks leaves an extent past the end of the file; each count is
      still right, but the next append at the end loses references. */
  method LoseReferences(v: Volume, ino: nat, ghost p: Lba, ghost q: Lba, buf: Bytes, algo: Algo) returns (st: Status)
    requires v.Valid() && ino < |v.files| && Straying(v.files[ino], v.bs, p, q) && |buf| > 0
    modifies v
    ensures v.Outcome(st, false)
    ensures st == Ok ==> v.Mounted() && !Balanced(v.used, v.refs, v.reserved, Total(v.files))
  {
    st := ShrinkStraying(v, ino, p, q);
    if st == Ok {
      AppendsAtEnd(v.bs, 144, |buf|, v.files[ino].over, 1);
      st := v.AppendFile(ino, 144 * v.bs, buf, algo, None);
    }
  }

  method ShrinkStraying(v: Volume, ino: nat, ghost p: Lba, ghost q: Lba) returns (st: Status)
    requires v.Valid() && ino < |v.files| && Straying(v.files[ino], v.bs, p, q)
    modifies v
    ensures v.Outcome(st, false)
    ensures st == Ok ==> v.Countable() && !v.Valid() && v.bs > 0 && |v.files| == |old(v.files)|
    ensures st == Ok ==> v.files[ino].size == 144 * v.bs && v.files[ino].over == StrayOver(p, q, 15)
  {
    ghost var inl := InlineExts(v.files[ino].slots, 0);
    StrayTruncated(inl, p, q);
    CeilOfMultiple(144, v.bs);
    CeilOfMultiple(160, v.bs);
    st := v.Shrink(ino, 144 * v.bs, None);
    if st == Ok {
      OverBehindInline(v.files[ino], inl, StrayOver(p, q, 15));
      assert Collect(v.files[ino])[INLINE + 1] == Ext(144, 15, q, 15);
    }
  }

  /** An append at the end of k whole groups clashes with a record that starts there. */
  lemma {:induction false} AppendsAtEnd(bs: nat, blocks: nat, len: nat, over: seq<Ext>, i: nat)
    requires bs > 0 && len > 0 && blocks % GROUP == 0 && i < |over| && over[i].ls == blocks
    ensures PureAppend(blocks * bs, blocks * bs, bs) && GroupClash(over, TouchedBy(bs, blocks * bs, len, blocks * bs))
  {
    CeilOfMultiple(blocks, bs);
    var t := TouchedBy(bs, blocks * bs, len, blocks * bs);
    WholeBlocks(blocks, bs);
    CeilOfMultiple(blocks / GROUP, GROUP);
    TouchedGroups(bs, blocks * bs, len, blocks * bs);
    assert HasKey(over, t.first * GROUP);
    assert ClashAt(over, t, t.first);
  }

  lemma {:induction false} WholeBlocks(n: nat, bs: nat)
    requires bs > 0
    ensures n * bs / bs == n
  {
    DivModUnique(n * bs, bs, n, 0);
  }

  // ----- a write that loses a block

  /** A file of 17 blocks whose blocks 1 to 16 are one compressed extent, as VolumeLosses.MakeShifted leaves it. */
  function Shifted(p: Lba, q: Lba, n: nat): seq<Ext> {
    [Ext(0, 1, p, 1), Ext(1, 16, q, n)]
  }

  /** Rewriting group 0 frees the whole compressed extent, so block 16 is gone. */
  lemma {:induction false} ShiftedCut(p: Lba, q: Lba, n: nat)
    requires n != 16
    ensures CutAll(Shifted(p, q, n), 0, 16) == [] && KeepRight(Shifted(p, q, n), 16) == []
    ensures Has(Shifted(p, q, n), 16) && CutAcross(Shifted(p, q, n), 16, 16) && !Uncut(Shifted(p, q, n), 16)
  {
    var list := Shifted(p, q, n);
    assert list[..|list| - 1] == [list[0]] && [list[0]][..0] == [];
    assert CutAll([list[0]], 0, 16) == [];
    assert list[1..] == [list[1]] && In(list[1], 16) && Across(list[1], 16, 16);
    assert KeepRight(list[1..], 16) == [];
  }

  /** Any write within the first 16 blocks of such a file leaves a hole where it held a block. */
  method LoseBlock(v: Volume, ino: nat, ghost p: Lba, ghost q: Lba, ghost n: nat, offset: nat, buf: Bytes, algo: Algo,
                   ghost content: seq<Block>)
    returns (st: Status)
    requires v.Valid() && ino < |v.files| && n != 16 && Collect(v.files[ino]) == Shifted(p, q, n)
    requires v.files[ino].size == 17 * v.bs && Holds(v.device, v.codec, v.bs, v.files[ino], content)
    requires |buf| > 0 && offset + |buf| <= 16 * v.bs
    modifies v
    ensures v.Outcome(st, true)
    ensures st == Ok ==> v.Valid() && ino < |v.files| && v.files[ino].size == 17 * v.bs && !Gapless(v.files[ino], v.bs)
  {
    ShiftedCut(p, q, n);
    WithinGroup(v.bs, offset, |buf|);
    HoldsPresents(v.device, v.codec, v.bs, v.files[ino], content);
    st := v.WriteFile(ino, offset, buf, algo, Some(content));
  }

  lemma {:induction false} WithinGroup(bs: nat, offset: nat, len: nat)
    requires bs > 0 && len > 0 && offset + len <= 16 * bs
    ensures var t := TouchedBy(bs, offset, len, 17 * bs);
      t.first == 0 && t.last == 0 && t.blocks == 17 && !PureAppend(17 * bs, offset, bs)
  {
    CeilOfMultiple(17, bs);
  }

  // ----- a clone that loses blocks

  /** A range inside a compressed group cuts it on both sides. */
  lemma {:induction false} GroupCut(q: Lba, n: nat, from: nat)
    requires n != 16
    ensures !CutsNone(Shift(from, 4, 4), [Ext(0, 16, q, n)])
    ensures KeepLeft([Ext(0, 16, q, n)], 4) == [] && KeepRight([Ext(0, 16, q, n)], 8) == []
  {
    var list := [Ext(0, 16, q, n)];
    assert list[1..] == [] && TrimLeft(list[0], 4) == [] && TrimRight(list[0], 8) == [];
    assert !Uncut(list, 4);
  }

  /** Cloning four blocks over blocks 4 to 7 of a file that is one compressed group loses its other blocks. */
  method LoseGroup(v: Volume, src: nat, dst: nat, ghost q: Lba, ghost n: nat, ghost cs: seq<Block>,
                   ghost cd: seq<Block>)
    returns (st: Status)
    requires v.Valid() && src < |v.files| && dst < |v.files| && src != dst
    requires n != 16 && Collect(v.files[dst]) == [Ext(0, 16, q, n)] && v.files[dst].size == 16 * v.bs
    requires Holds(v.device, v.codec, v.bs, v.files[src], cs) && Holds(v.device, v.codec, v.bs, v.files[dst], cd)
    requires v.files[src].size >= 4 * v.bs
    modifies v
    ensures v.Outcome(st, true)
    ensures st == Ok ==> v.Valid() && dst < |v.files| && v.files[dst].size == 16 * v.bs && !Gapless(v.files[dst], v.bs)
  {
    GroupCut(q, n, 0);
    ShiftFour(v.bs);
    CeilOfMultiple(16, v.bs);
    CeilOfMultiple(4, v.bs);
    CeilDivMonotone(4 * v.bs, v.files[src].size, v.bs);
    HoldsPresents(v.device, v.codec, v.bs, v.files[src], cs);
    HoldsPresents(v.device, v.codec, v.bs, v.files[dst], cd);
    st := v.CloneRange(src, 0, dst, 4 * v.bs, 4 * v.bs, cs, Some(cd));
  }

  lemma {:induction false} ShiftFour(bs: nat)
    requires bs > 0
    ensures ShiftFor(0, 4 * bs, 4 * bs, bs) == Shift(0, 4, 4) && 4 * bs % bs == 0 && 0 % bs == 0
  {
    DivModUnique(4 * bs, bs, 4, 0);
  }
}
