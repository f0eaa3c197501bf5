/** Whole runs of file operations: the volume behaves as a table of plain byte arrays. */
module VolumeRuns {
  import opened Blocks
  import opened Extents
  import opened FileLayout
  import opened FileContent
  import opened FileWrites
  import opened FileAppends
  import opened GroupRewrites
  import opened WriteSafety
  import opened FileClone
  import opened FileRead
  import opened Refcounts
  import opened Volumes

  /** Operations on files; sizes and offsets in bytes. */
  datatype Op =
    | Write(ino: nat, offset: nat, buf: Bytes)
    | Truncate(ino: nat, newsize: nat)
    | Clone(src: nat, srcOffset: nat, dst: nat, dstOffset: nat, length: nat)
    | Unlink(ino: nat)

  /** The reference: each file is a byte array. It is also noted whether all its compressed extents are whole
      groups, as they are until a clone shifts positions within groups. */
  datatype Entry = Entry(bytes: Bytes, whole: bool)

  type Table = seq<Entry>

  predicate CloneRefused(op: Op, bs: nat)
    requires op.Clone? && bs > 0
  {
    op.srcOffset % bs != 0 || op.dstOffset % bs != 0 || op.length % bs != 0 || op.length == 0 || op.src == op.dst
  }

  /** A cut at block x of a file with so many blocks meets no compressed extent: it lies at either end of the
      file, or at a group boundary of a file with whole groups. */
  ghost predicate CutPoint(e: Entry, x: nat, blocks: nat) {
    x == 0 || x >= blocks || (e.whole && x % GROUP == 0)
  }

  /** Writes leave no hole, and rewrite groups only of files with whole groups. Clones take existing source
      bytes, start no later than the end of the destination, and cut it at such points. */
  ghost predicate Fits(t: Table, bs: nat, op: Op)
    requires bs > 0
  {
    match op
    case Write(ino, offset, buf) => ino < |t| && |buf| > 0 && WriteFits(t[ino], bs, offset)
    case Truncate(ino, newsize) => ino < |t| && (newsize > |t[ino].bytes| ==> WriteFits(t[ino], bs, |t[ino].bytes|))
    case Clone(src, srcOffset, dst, dstOffset, length) =>
      && src < |t| && dst < |t|
      && (!CloneRefused(op, bs) ==>
            && srcOffset + length <= |t[src].bytes| && dstOffset <= |t[dst].bytes|
            && CloneCuts(t[dst], ShiftFor(srcOffset, dstOffset, length, bs), CeilDiv(|t[dst].bytes|, bs)))
    case Unlink(ino) => ino < |t|
  }

  ghost predicate WriteFits(e: Entry, bs: nat, offset: nat)
    requires bs > 0
  {
    offset <= |e.bytes| && (e.whole || PureAppend(|e.bytes|, offset, bs))
  }

  ghost predicate CloneCuts(e: Entry, h: Shift, blocks: nat) {
    CutPoint(e, h.to, blocks) && CutPoint(e, h.to + h.n, blocks)
  }

  function Resized(s: Bytes, n: nat): Bytes {
    if n > |s| then s + Zeros(n - |s|) else s[..n]
  }

  /** What an operation does to the byte arrays. */
  function Step(t: Table, bs: nat, op: Op): Table
    requires bs > 0 && Fits(t, bs, op)
  {
    match op
    case Write(ino, offset, buf) => t[ino := t[ino].(bytes := BytesWritten(t[ino].bytes, offset, buf))]
    case Truncate(ino, newsize) => t[ino := t[ino].(bytes := Resized(t[ino].bytes, newsize))]
    case Clone(src, srcOffset, dst, dstOffset, length) =>
      if CloneRefused(op, bs) then t
      else t[dst := Entry(BytesWritten(t[dst].bytes, dstOffset, t[src].bytes[srcOffset..srcOffset + length]),
                          t[src].whole && t[dst].whole && InStep(ShiftFor(srcOffset, dstOffset, length, bs)))]
    case Unlink(ino) => t[ino := Entry([], true)]
  }

  ghost predicate AllFit(t: Table, bs: nat, ops: seq<Op>)
    requires bs > 0
    decreases |ops|
  {
    ops == [] || (Fits(t, bs, ops[0]) && AllFit(Step(t, bs, ops[0]), bs, ops[1..]))
  }

  ghost function After(t: Table, bs: nat, ops: seq<Op>): Table
    requires bs > 0 && AllFit(t, bs, ops)
    decreases |ops|
  {
    if ops == [] then t else After(Step(t, bs, ops[0]), bs, ops[1..])
  }

  // ----- the relation between volume and table

  /** File i holds these blocks, and its bytes are the array. */
  ghost predicate FileIs(dev: Device, c: Codec, bs: nat, f: File, content: seq<Block>, e: Entry)
    requires bs > 0
  {
    && Holds(dev, c, bs, f, content) && (e.whole ==> Aligned(Collect(f)))
    && f.size == |e.bytes| <= |Join(content)| && FileBytes(content, f.size) == e.bytes
  }

  ghost predicate Models(v: Volume, t: Table, cs: seq<seq<Block>>)
    reads v
  {
    && v.Valid() && |v.files| == |t| == |cs|
    && forall i | 0 <= i < |t| :: FileIs(v.device, v.codec, v.bs, v.files[i], cs[i], t[i])
  }

  /** A change confined to one file, which leaves the other files' blocks alone, changes only that file's
      bytes. */
  lemma {:induction false} OneFileChanged(dev: Device, dev': Device, c: Codec, bs: nat, files: seq<File>,
                                          files': seq<File>,
                                          ino: nat, t: Table, cs: seq<seq<Block>>, content: seq<Block>, e: Entry)
    requires bs > 0 && OnlyFile(files, files', ino) && SameOn(dev, dev', Others(files, ino)) && |files| == |t| == |cs|
    requires forall i | 0 <= i < |t| :: FileIs(dev, c, bs, files[i], cs[i], t[i])
    requires FileIs(dev', c, bs, files'[ino], content, e)
    ensures forall i | 0 <= i < |t| :: FileIs(dev', c, bs, files'[i], cs[ino := content][i], t[ino := e][i])
  {
    forall i | 0 <= i < |t| ensures FileIs(dev', c, bs, files'[i], cs[ino := content][i], t[ino := e][i]) {
      if i != ino {
        OtherUnchanged(dev, dev', c, bs, files, ino, i, cs[i]);
      }
    }
  }

  /** What another file holds survives any operation that keeps the other files' blocks. */
  lemma {:induction false} OtherUnchanged(dev: Device, dev': Device, c: Codec, bs: nat, files: seq<File>,
                                          ino: nat, j: nat, content: seq<Block>)
    requires bs > 0 && ino < |files| && j < |files| && ino != j && SameOn(dev, dev', Others(files, ino))
    requires Holds(dev, c, bs, files[j], content)
    ensures Holds(dev', c, bs, files[j], content)
  {
    hide Owned, Others, SameOn, Collect, Shows;
    OtherOwned(files, ino, j);
    SameOnSub(dev, dev', Owned(Collect(files[j])), Others(files, ino));
    ShowsFrame(dev, dev', c, Collect(files[j]), content);
  }

  // ----- the operations

  method DoWrite(v: Volume, ino: nat, offset: nat, buf: Bytes, algo: Algo, ghost t: Table, ghost cs: seq<seq<Block>>)
    returns (st: Status, ghost cs': seq<seq<Block>>)
    requires Models(v, t, cs) && ino < |t| && |buf| > 0 && WriteFits(t[ino], v.bs, offset)
    modifies v
    ensures v.Outcome(st, true)
    ensures st == Ok ==> Models(v, t[ino := t[ino].(bytes := BytesWritten(t[ino].bytes, offset, buf))], cs')
  {
    hide Holds, SameOn, Join, FileBytes, Written, Aligned, Collect, CeilDiv, NewSize, BytesWritten, Others, Gapless,
         KeepsGapless,
         WriteSafe, PureAppend;
    ghost var files0, dev0, content, e := v.files, v.device, cs[ino], t[ino];
    assert FileIs(v.device, v.codec, v.bs, v.files[ino], content, e);
    cs' := cs;
    HoldsPresents(v.device, v.codec, v.bs, v.files[ino], content);
    st := v.WriteFile(ino, offset, buf, algo, Some(content));
    if st != Ok {
      return;
    }
    ghost var content' := Written(content, CeilDiv(v.files[ino].size, v.bs), v.bs, offset, buf);
    if !e.whole {
      SafeAppend(files0[ino], content, v.bs, offset, |buf|);
    }
    WriteModels(dev0, v.device, v.codec, v.bs, files0[ino], v.files[ino], content, offset, buf, e);
    ghost var e' := e.(bytes := BytesWritten(e.bytes, offset, buf));
    OneFileChanged(dev0, v.device, v.codec, v.bs, files0, v.files, ino, t, cs, content', e');
    cs' := cs[ino := content'];
  }

  lemma {:induction false} SafeAppend(f: File, content: seq<Block>, bs: nat, offset: nat, len: nat)
    requires bs > 0 && len > 0 && PureAppend(f.size, offset, bs)
    ensures WriteSafe(f, content, bs, offset, len)
  {
  }

  lemma {:induction false} WriteModels(dev: Device, dev': Device, c: Codec, bs: nat, f: File, f': File,
                                       content: seq<Block>,
                                       offset: nat, buf: Bytes, e: Entry)
    requires bs > 0 && FileIs(dev, c, bs, f, content, e) && offset <= |e.bytes|
    requires f'.size == NewSize(f.size, offset, |buf|)
    requires Holds(dev', c, bs, f', Written(content, CeilDiv(f'.size, bs), bs, offset, buf))
    requires (e.whole ==> Aligned(Collect(f')))
    ensures FileIs(dev', c, bs, f', Written(content, CeilDiv(f'.size, bs), bs, offset, buf),
                   e.(bytes := BytesWritten(e.bytes, offset, buf)))
  {
    hide Shows, Covers, Written, Aligned, Collect, CeilDiv;
    WrittenBytes(content, bs, f.size, offset, buf);
    WrittenLength(e.bytes, offset, buf);
  }

  lemma {:induction false} WrittenLength(s: Bytes, offset: nat, buf: Bytes)
    requires offset <= |s|
    ensures |BytesWritten(s, offset, buf)| == NewSize(|s|, offset, |buf|)
  {
  }

  method DoTruncate(v: Volume, ino: nat, newsize: nat, algo: Algo, ghost t: Table, ghost cs: seq<seq<Block>>)
    returns (st: Status, ghost cs': seq<seq<Block>>)
    requires Models(v, t, cs) && ino < |t| && (newsize > |t[ino].bytes| ==> WriteFits(t[ino], v.bs, |t[ino].bytes|))
    modifies v
    ensures v.Outcome(st, true)
    ensures st == Ok ==> Models(v, t[ino := t[ino].(bytes := Resized(t[ino].bytes, newsize))], cs')
  {
    hide Holds, SameOn, Join, FileBytes, Aligned, Collect, CeilDiv, Others, WriteFits, Gapless, Within, LogicalSum,
         BytesWritten;
    ghost var files0, dev0, content, e := v.files, v.device, cs[ino], t[ino];
    assert FileIs(v.device, v.codec, v.bs, v.files[ino], content, e);
    var size := v.files[ino].size;
    if newsize > size {
      st, cs' := DoWrite(v, ino, size, Zeros(newsize - size), algo, t, cs);
      GrownBytes(e.bytes, newsize);
      return;
    }
    cs' := cs;
    HeldGapless(v.device, v.codec, v.bs, v.files[ino], content);
    st := v.Shrink(ino, newsize, Some(content));
    if st != Ok {
      return;
    }
    ghost var content' := content[..CeilDiv(newsize, v.bs)];
    ShrinkModels(dev0, v.device, v.codec, v.bs, files0[ino], v.files[ino], content, e);
    OneFileChanged(dev0, v.device, v.codec, v.bs, files0, v.files, ino, t, cs, content',
                   e.(bytes := e.bytes[..newsize]));
    cs' := cs[ino := content'];
  }

  lemma {:induction false} GrownBytes(s: Bytes, n: nat)
    requires n > |s|
    ensures BytesWritten(s, |s|, Zeros(n - |s|)) == Resized(s, n)
  {
  }

  lemma {:induction false} HeldGapless(dev: Device, c: Codec, bs: nat, f: File, content: seq<Block>)
    requires bs > 0 && Holds(dev, c, bs, f, content)
    ensures Gapless(f, bs) && AllSized(content, bs) && Shows(dev, c, Collect(f), content)
  {
  }

  lemma {:induction false} ShrinkModels(dev: Device, dev': Device, c: Codec, bs: nat, f: File, f': File,
                                        content: seq<Block>, e: Entry)
    requires bs > 0 && FileIs(dev, c, bs, f, content, e) && f'.size <= |e.bytes| && CeilDiv(f'.size, bs) <= |content|
    requires Holds(dev', c, bs, f', content[..CeilDiv(f'.size, bs)]) && (e.whole ==> Aligned(Collect(f')))
    ensures FileIs(dev', c, bs, f', content[..CeilDiv(f'.size, bs)], e.(bytes := e.bytes[..f'.size]))
  {
    hide Shows, Covers, Aligned, Collect, CeilDiv, Join;
    ShrunkBytes(content, bs, f.size, f'.size);
  }

  method DoClone(v: Volume, op: Op, ghost t: Table, ghost cs: seq<seq<Block>>)
    returns (st: Status, ghost cs': seq<seq<Block>>)
    requires Models(v, t, cs) && op.Clone? && Fits(t, v.bs, op)
    modifies v
    ensures st == Inval <==> CloneRefused(op, v.bs)
    ensures st != Inval ==> v.Outcome(st, true)
    ensures st == Ok || st == Inval ==> Models(v, Step(t, v.bs, op), cs')
  {
    hide Holds, SameOn, Join, FileBytes, Aligned, Collect, CeilDiv, BytesWritten, Others, Total, ClonedContent,
         CutsNone, CloneCuts,
         ShiftFor, AllShareable, Gapless;
    ghost var files0, dev0, h := v.files, v.device, ShiftFor(op.srcOffset, op.dstOffset, op.length, v.bs);
    ghost var from, to := cs[op.src], cs[op.dst];
    assert FileIs(v.device, v.codec, v.bs, v.files[op.src], from, t[op.src]);
    assert FileIs(v.device, v.codec, v.bs, v.files[op.dst], to, t[op.dst]);
    cs' := cs;
    ghost var guarantee := if CloneRefused(op, v.bs) then None else Some(to);
    if guarantee.Some? {
      ClonePossible(v.device, v.codec, v.bs, v.files[op.src], v.files[op.dst], from, to, t[op.dst], h, op);
      HoldsPresents(v.device, v.codec, v.bs, v.files[op.src], from);
      HoldsPresents(v.device, v.codec, v.bs, v.files[op.dst], to);
    }
    st := v.CloneRange(op.src, op.srcOffset, op.dst, op.dstOffset, op.length, from, guarantee);
    if st == Ok {
      ClonedTable(dev0, v.device, v.codec, v.bs, files0, v.files, t, cs, h, op);
      cs' := cs[op.dst := ClonedContent(to, from, h)];
    }
  }

  /** What a clone makes of the table. */
  lemma {:induction false} ClonedTable(dev: Device, dev': Device, c: Codec, bs: nat, files: seq<File>,
                                       files': seq<File>,
                                       t: Table, cs: seq<seq<Block>>, h: Shift, op: Op)
    requires bs > 0 && op.Clone? && Fits(t, bs, op) && !CloneRefused(op, bs) && |files| == |t| == |cs|
    requires h == ShiftFor(op.srcOffset, op.dstOffset, op.length, bs)
    requires op.srcOffset == h.from * bs && op.dstOffset == h.to * bs && op.length == h.n * bs
    requires h.from + h.n <= |cs[op.src]| && h.to <= |cs[op.dst]|
    requires forall i | 0 <= i < |t| :: FileIs(dev, c, bs, files[i], cs[i], t[i])
    requires OnlyFile(files, files', op.dst) && SameOn(dev, dev', Total(files))
    requires files'[op.dst].size == NewSize(files[op.dst].size, op.dstOffset, op.length)
    requires Holds(dev', c, bs, files'[op.dst], ClonedContent(cs[op.dst], cs[op.src], h))
    requires InStep(h) && Aligned(Collect(files[op.src])) && Aligned(Collect(files[op.dst])) ==>
      Aligned(Collect(files'[op.dst]))
    ensures var content := ClonedContent(cs[op.dst], cs[op.src], h);
      forall i | 0 <= i < |t| :: FileIs(dev', c, bs, files'[i], cs[op.dst := content][i], Step(t, bs, op)[i])
  {
    hide Holds, SameOn, Join, FileBytes, Aligned, Collect, CeilDiv, BytesWritten, Others, Total, ClonedContent,
         CloneCuts, InStep;
    var e' := Step(t, bs, op)[op.dst];
    assert FileIs(dev, c, bs, files[op.src], cs[op.src], t[op.src]);
    assert FileIs(dev, c, bs, files[op.dst], cs[op.dst], t[op.dst]);
    CloneModels(dev, dev', c, bs, files[op.src], files[op.dst], files'[op.dst], cs[op.src], cs[op.dst],
                t[op.src], t[op.dst], e'.whole, h, op);
    TotalAround(files, op.dst);
    SameOnParts(dev, dev', Others(files, op.dst), Owned(Collect(files[op.dst])));
    OneFileChanged(dev, dev', c, bs, files, files', op.dst, t, cs, ClonedContent(cs[op.dst], cs[op.src], h), e');
  }

  lemma {:induction false} ClonePossible(dev: Device, c: Codec, bs: nat, src: File, dst: File, from: seq<Block>,
                                         to: seq<Block>,
                                         e: Entry, h: Shift, op: Op)
    requires bs > 0 && op.Clone? && !CloneRefused(op, bs) && h == ShiftFor(op.srcOffset, op.dstOffset, op.length, bs)
    requires Holds(dev, c, bs, src, from) && Holds(dev, c, bs, dst, to) && (e.whole ==> Aligned(Collect(dst)))
    requires op.srcOffset + op.length <= src.size && op.dstOffset <= dst.size && CloneCuts(e, h, CeilDiv(dst.size, bs))
    ensures CloneInside(h, from, to) && CutsNone(h, Collect(dst)) && h.from + h.n <= |from| && h.to <= |to|
    ensures op.srcOffset == h.from * bs && op.dstOffset == h.to * bs && op.length == h.n * bs
  {
    hide Shows, Covers, Collect, AllSized, Aligned, Uncut;
    BlockMultiple(op.srcOffset, bs);
    BlockMultiple(op.dstOffset, bs);
    BlockMultiple(op.length, bs);
    assert (h.from + h.n) * bs == h.from * bs + h.n * bs;
    CeilOfMultiple(h.from + h.n, bs);
    CeilOfMultiple(h.to, bs);
    CeilDivMonotone(op.srcOffset + op.length, src.size, bs);
    CeilDivMonotone(op.dstOffset, dst.size, bs);
    CutPointUncut(Collect(dst), e, h.to, |to|);
    CutPointUncut(Collect(dst), e, h.to + h.n, |to|);
  }

  lemma {:induction false} CutPointUncut(list: seq<Ext>, e: Entry, x: nat, blocks: nat)
    requires Covers(list, 0, blocks) && (e.whole ==> Aligned(list)) && CutPoint(e, x, blocks)
    ensures Uncut(list, x)
  {
    if x >= blocks {
      PastEndUncut(list, blocks, x);
    } else if x > 0 {
      AlignedUncut(list, x, blocks);
    }
  }

  lemma {:induction false} BlockMultiple(x: nat, bs: nat)
    requires bs > 0 && x % bs == 0
    ensures x == x / bs * bs
  {
  }

  lemma {:induction false} CloneModels(dev: Device, dev': Device, c: Codec, bs: nat, src: File, dst: File, dst': File,
                                       from: seq<Block>, to: seq<Block>, s: Entry, d: Entry, whole: bool, h: Shift,
                                       op: Op)
    requires bs > 0 && op.Clone? && FileIs(dev, c, bs, src, from, s) && FileIs(dev, c, bs, dst, to, d)
    requires op.srcOffset == h.from * bs && op.dstOffset == h.to * bs && op.length == h.n * bs
    requires op.srcOffset + op.length <= |s.bytes| && op.dstOffset <= |d.bytes| && h.from + h.n <= |from|
    requires h.to <= |to|
    requires dst'.size == NewSize(dst.size, op.dstOffset, op.length)
    requires Holds(dev', c, bs, dst', ClonedContent(to, from, h)) && (whole ==> Aligned(Collect(dst')))
    ensures FileIs(dev', c, bs, dst', ClonedContent(to, from, h),
                   Entry(BytesWritten(d.bytes, op.dstOffset, s.bytes[op.srcOffset..op.srcOffset + op.length]), whole))
  {
    hide Shows, Covers, Aligned, Collect, CeilDiv, Join, ClonedContent, AllSized;
    HeldSize(ClonedContent(to, from, h), bs, dst'.size);
    ClonedBytes(to, from, h, bs, d.bytes, s.bytes, op.dstOffset, op.srcOffset, op.length);
    WrittenLength(d.bytes, op.dstOffset, s.bytes[op.srcOffset..op.srcOffset + op.length]);
  }

  /** Replacing whole blocks is writing their bytes. */
  lemma {:induction false} ClonedBytes(to: seq<Block>, from: seq<Block>, h: Shift, bs: nat, d: Bytes, s: Bytes,
                                       dstOffset: nat, srcOffset: nat, length: nat)
    requires AllSized(to, bs) && AllSized(from, bs) && h.from + h.n <= |from| && h.to <= |to|
    requires srcOffset == h.from * bs && dstOffset == h.to * bs && length == h.n * bs
    requires |s| <= |Join(from)| && s == Join(from)[..|s|] && |d| <= |Join(to)| && d == Join(to)[..|d|]
    requires srcOffset + length <= |s| && dstOffset <= |d|
    requires NewSize(|d|, dstOffset, length) <= |Join(ClonedContent(to, from, h))|
    ensures Join(ClonedContent(to, from, h))[..NewSize(|d|, dstOffset, length)]
      == BytesWritten(d, dstOffset, s[srcOffset..srcOffset + length])
  {
    hide Join, AllSized;
    var mid := from[h.from..h.from + h.n];
    var right := if h.to + h.n < |to| then to[h.to + h.n..] else [];
    JoinConcat(to[..h.to] + mid, right);
    JoinConcat(to[..h.to], mid);
    Products(h, bs);
    JoinSlice(from, bs, h.from, h.from + h.n);
    JoinSlice(to, bs, 0, h.to);
    assert to[0..h.to] == to[..h.to];
    RightJoin(to, h.to + h.n, dstOffset + length, bs);
    PiecesWritten(Join(to), d, Join(from), s, Join(right), dstOffset, srcOffset, length);
  }

  lemma {:induction false} Products(h: Shift, bs: nat)
    ensures (h.from + h.n) * bs == h.from * bs + h.n * bs && (h.to + h.n) * bs == h.to * bs + h.n * bs && 0 * bs == 0
  {
  }

  lemma {:induction false} RightJoin(to: seq<Block>, k: nat, p: nat, bs: nat)
    requires AllSized(to, bs) && p == k * bs
    ensures var right := if k < |to| then to[k..] else [];
      Join(right) == if p < |Join(to)| then Join(to)[p..] else []
  {
    JoinLength(to, bs);
    if k < |to| {
      JoinSlice(to, bs, k, |to|);
      assert to[k..|to|] == to[k..];
      if bs == 0 {
        JoinLength(to[k..], bs);
      } else {
        MulMonotone(k + 1, |to|, bs);
        assert (k + 1) * bs == k * bs + bs;
      }
    } else {
      MulMonotone(|to|, k, bs);
    }
  }

  lemma {:induction false} PiecesWritten(jt: Bytes, d: Bytes, jf: Bytes, s: Bytes, right: Bytes, dstOffset: nat,
                                         srcOffset: nat, length: nat)
    requires |d| <= |jt| && d == jt[..|d|] && |s| <= |jf| && s == jf[..|s|]
    requires srcOffset + length <= |s| && dstOffset <= |d|
    requires right == if dstOffset + length < |jt| then jt[dstOffset + length..] else []
    ensures var whole := jt[0..dstOffset] + jf[srcOffset..srcOffset + length] + right;
      var n := NewSize(|d|, dstOffset, length);
      n <= |whole| && whole[..n] == BytesWritten(d, dstOffset, s[srcOffset..srcOffset + length])
  {
    assert jf[srcOffset..srcOffset + length] == s[srcOffset..srcOffset + length];
    assert jt[0..dstOffset] == d[..dstOffset];
    var whole, n := jt[0..dstOffset] + jf[srcOffset..srcOffset + length] + right, NewSize(|d|, dstOffset, length);
    if dstOffset + length < |d| {
      assert whole[..n] == d[..dstOffset] + s[srcOffset..srcOffset + length] + right[..|d| - (dstOffset + length)];
      assert right[..|d| - (dstOffset + length)] == d[dstOffset + length..];
    }
  }

  /** Deleting a file releases its blocks; the inode record is then empty. */
  method DoUnlink(v: Volume, ino: nat, ghost t: Table, ghost cs: seq<seq<Block>>) returns (ghost cs': seq<seq<Block>>)
    requires Models(v, t, cs) && ino < |t|
    modifies v
    ensures Models(v, t[ino := Entry([], true)], cs')
  {
    hide FileIs, Others, FileOk, Balanced, Lossless, Total, SameOn, AllSized, Pow256;
    ghost var files0, dev0 := v.files, v.device;
    v.Unlink(ino);
    SameOnRefl(dev0, Others(files0, ino));
    EmptyIs(v.device, v.codec, v.bs);
    OneFileChanged(dev0, v.device, v.codec, v.bs, files0, v.files, ino, t, cs, [], Entry([], true));
    cs' := cs[ino := []];
  }

  lemma {:induction false} EmptyIs(dev: Device, c: Codec, bs: nat)
    requires bs > 0
    ensures FileIs(dev, c, bs, EMPTY_FILE, [], Entry([], true))
  {
    InlineUnused(EMPTY_FILE.slots, 0);
  }

  /** One operation; a refused clone changes nothing. */
  method Do(v: Volume, op: Op, algo: Algo, ghost t: Table, ghost cs: seq<seq<Block>>)
    returns (st: Status, ghost cs': seq<seq<Block>>)
    requires Models(v, t, cs) && Fits(t, v.bs, op)
    modifies v
    ensures st == Ok || st == Inval ==> Models(v, Step(t, v.bs, op), cs')
    ensures st == Inval <==> op.Clone? && CloneRefused(op, v.bs)
    ensures st != Inval ==> v.Outcome(st, true)
  {
    hide Models, BytesWritten, Resized, CloneRefused, WriteFits, CloneCuts;
    match op
    case Write(ino, offset, buf) =>
      st, cs' := DoWrite(v, ino, offset, buf, algo, t, cs);
    case Truncate(ino, newsize) =>
      st, cs' := DoTruncate(v, ino, newsize, algo, t, cs);
    case Clone(src, srcOffset, dst, dstOffset, length) =>
      st, cs' := DoClone(v, op, t, cs);
    case Unlink(ino) =>
      cs' := DoUnlink(v, ino, t, cs);
      st := Ok;
  }

  /** A whole run, with compression on or off per operation. Unless the search finds no run of some number of blocks,
      at most a group, on either side of the hint, it ends well, and every file is the byte array that the same
      operations give. */
  method Run(v: Volume, ops: seq<Op>, algos: seq<Algo>, ghost t: Table, ghost cs: seq<seq<Block>>)
    returns (st: Status, ghost cs': seq<seq<Block>>)
    requires Models(v, t, cs) && |algos| == |ops| && AllFit(t, v.bs, ops)
    modifies v
    ensures v.Outcome(st, true)
    ensures st == Ok ==> Models(v, After(t, v.bs, ops), cs')
    decreases |ops|
  {
    cs' := cs;
    if ops == [] {
      return Ok, cs;
    }
    st, cs' := Do(v, ops[0], algos[0], t, cs);
    if st == Ok || st == Inval {
      hide Models;
      st, cs' := Run(v, ops[1..], algos[1..], Step(t, v.bs, ops[0]), cs');
    }
  }

  /** The table of a volume with n empty files. */
  function Fresh(n: nat): Table {
    seq(n, _ => Entry([], true))
  }

  /** From a fresh volume: after any fitting run, any read of any file returns what the byte array holds. */
  method RunAndRead(bs: nat, codec: Codec, device: Device, reserved: set<Lba>, hint: nat, n: nat, ops: seq<Op>,
                    algos: seq<Algo>,
                    ino: nat, offset: nat, size: nat)
    returns (st: Status, buf: Bytes)
    requires bs > 0 && GROUP * bs < Pow256(8) && Lossless(codec) && AllSized(device, bs)
    requires forall x | x in reserved :: x < |device|
    requires |algos| == |ops| && AllFit(Fresh(n), bs, ops) && ino < n
    ensures st == Ok || st == NoSpace
    ensures st == Ok ==> var t := After(Fresh(n), bs, ops);
      && ino < |t|
      && buf == if offset >= |t[ino].bytes| then []
                else t[ino].bytes[offset..offset + ReadSize(offset, size, |t[ino].bytes|)]
  {
    hide FileIs, FileOk, Balanced, Lossless, Total, AllSized, Pow256, AllFit, After;
    ghost var cs0: seq<seq<Block>> := seq(n, _ => []);
    var v := new Volume(bs, codec, device, reserved, hint, n);
    EmptyIs(device, codec, bs);
    ghost var cs;
    buf := [];
    st, cs := Run(v, ops, algos, Fresh(n), cs0);
    if st != Ok {
      return;
    }
    RunLength(Fresh(n), bs, ops);
    st, buf := ReadBack(v, ino, offset, size, After(Fresh(n), bs, ops), cs);
  }

  /** Any read of a file returns what its byte array holds there. */
  method ReadBack(v: Volume, ino: nat, offset: nat, size: nat, ghost t: Table, ghost cs: seq<seq<Block>>)
    returns (st: Status, buf: Bytes)
    requires Models(v, t, cs) && ino < |t|
    ensures st == Ok
    ensures buf == if offset >= |t[ino].bytes| then []
                   else t[ino].bytes[offset..offset + ReadSize(offset, size, |t[ino].bytes|)]
  {
    hide FileOk, Balanced, Lossless, Total, AllSized, Pow256, Holds, Aligned, FileBytes, Join;
    assert FileIs(v.device, v.codec, v.bs, v.files[ino], cs[ino], t[ino]);
    st, buf := v.ReadFile(ino, offset, size, Some(cs[ino]));
  }

  lemma {:induction false} RunLength(t: Table, bs: nat, ops: seq<Op>)
    requires bs > 0 && AllFit(t, bs, ops)
    ensures |After(t, bs, ops)| == |t|
    decreases |ops|
  {
    if ops != [] {
      RunLength(Step(t, bs, ops[0]), bs, ops[1..]);
    }
  }
}
