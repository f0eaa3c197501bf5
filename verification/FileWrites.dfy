/** Value-level facts about storing an extent list and about replacing one group of a file. */
module FileWrites {
  import opened Blocks
  import opened Extents
  import opened Coalescing
  import opened FileLayout
  import opened FileContent

  /** A file that stores the coalesced list owns the same blocks and keeps the list in order. */
  lemma {:induction false} StoredList(f: File, list: seq<Ext>, n: nat)
    requires AllOk(list) && Sorted(list) && Within(list, n) && Stores(f, Coalesce(list))
    ensures LayoutOk(f) && Owned(Collect(f)) == Owned(list)
    ensures AllOk(Collect(f)) && Sorted(Collect(f)) && Within(Collect(f), n)
  {
    CoalesceCorrect(list, n);
    StoredCollect(f, Coalesce(list), n);
  }

  /** Storing and collecting a gapless list of any length gives back its coalesced form: the same
      logical-to-physical mapping, maximally merged, still gapless. */
  lemma {:induction false} StoreRoundTrip(f: File, list: seq<Ext>, n: nat)
    requires AllOk(list) && Covers(list, 0, n) && Stores(f, Coalesce(list))
    ensures Collect(f) == Coalesce(list) && Covers(Collect(f), 0, n) && Maximal(Collect(f))
    ensures forall i, x :: Maps(Collect(f), i, x) <==> Maps(list, i, x)
  {
    CoversBounds(list, 0, n);
    CoalesceCorrect(list, n);
    CoalesceCovers(list, 0, n);
    StoredExact(f, Coalesce(list), n);
  }

  // ----- pieces of a sorted list

  lemma {:induction false} SortedTail(list: seq<Ext>)
    requires list != [] && AllOk(list) && Sorted(list)
    ensures var rest := list[1..]; ExtOk(list[0]) && AllOk(rest) && Sorted(rest) && StartsAfter(rest, End(list[0]))
    ensures forall n | Within(list, n) :: End(list[0]) <= n && Within(list[1..], n)
  {
    var rest := list[1..];
    forall i | 0 <= i < |rest| ensures ExtOk(rest[i]) && End(list[0]) <= rest[i].ls {
      assert rest[i] == list[i + 1] && ExtOk(list[i + 1]);
    }
    forall i, j | 0 <= i < j < |rest| ensures End(rest[i]) <= rest[j].ls {
      assert rest[i] == list[i + 1] && rest[j] == list[j + 1];
    }
    forall n | Within(list, n) ensures Within(rest, n) {
      forall i | 0 <= i < |rest| ensures End(rest[i]) <= n {
        assert rest[i] == list[i + 1];
      }
    }
  }

  /** Nothing of the list lies before block x. */
  ghost predicate StartsAfter(list: seq<Ext>, x: nat) {
    forall i | 0 <= i < |list| :: x <= list[i].ls
  }

  ghost predicate StartsBefore(list: seq<Ext>, x: nat) {
    forall i | 0 <= i < |list| :: list[i].ls < x
  }

  lemma {:induction false} TrimmedLeft(e: Ext, x: nat)
    requires ExtOk(e)
    ensures var a := TrimLeft(e, x);
      AllOk(a) && Sorted(a) && Within(a, x) && StartsBefore(a, x) && StartsAfter(a, e.ls) && Within(a, End(e))
  {
  }

  lemma {:induction false} TrimmedRight(e: Ext, x: nat)
    requires ExtOk(e)
    ensures var a := TrimRight(e, x);
      AllOk(a) && Sorted(a) && StartsAfter(a, x) && StartsAfter(a, e.ls) && Within(a, End(e))
  {
  }

  /** Lists on either side of block x. */
  lemma {:induction false} JoinLists(a: seq<Ext>, b: seq<Ext>, x: nat)
    requires AllOk(a) && AllOk(b) && Sorted(a) && Sorted(b) && Within(a, x) && StartsAfter(b, x)
    ensures AllOk(a + b) && Sorted(a + b)
    ensures forall n | x <= n && Within(b, n) :: Within(a + b, n)
    ensures forall n | Within(a, n) && Within(b, n) :: Within(a + b, n)
    ensures forall n | StartsBefore(a, n) && StartsBefore(b, n) :: StartsBefore(a + b, n)
    ensures forall n | StartsAfter(a, n) && StartsAfter(b, n) :: StartsAfter(a + b, n)
  {
    ConcatSorted(a, b);
  }

  lemma {:induction false} KeepLeftSorted(list: seq<Ext>, x: nat)
    requires AllOk(list) && Sorted(list)
    ensures var l := KeepLeft(list, x); AllOk(l) && Sorted(l) && Within(l, x) && StartsBefore(l, x)
    ensures forall y | StartsAfter(list, y) :: StartsAfter(KeepLeft(list, x), y)
  {
    if list != [] {
      SortedTail(list);
      TrimmedLeft(list[0], x);
      KeepLeftSorted(list[1..], x);
      hide AllOk, Sorted, Within, StartsBefore, TrimLeft;
      assert StartsAfter(KeepLeft(list[1..], x), End(list[0]));
      JoinLists(TrimLeft(list[0], x), KeepLeft(list[1..], x), End(list[0]));
      KeptAfter(list, TrimLeft(list[0], x) + KeepLeft(list[1..], x));
    }
  }

  lemma {:induction false} KeptAfter(list: seq<Ext>, kept: seq<Ext>)
    requires list != [] && StartsAfter(kept, list[0].ls)
    ensures forall y | StartsAfter(list, y) :: StartsAfter(kept, y)
  {
    forall y: nat | StartsAfter(list, y) ensures StartsAfter(kept, y) {
      assert y <= list[0].ls;
    }
  }

  lemma {:induction false} KeepRightSorted(list: seq<Ext>, x: nat, n: nat)
    requires AllOk(list) && Sorted(list) && Within(list, n)
    ensures var r := KeepRight(list, x); AllOk(r) && Sorted(r) && Within(r, n) && StartsAfter(r, x)
    ensures forall y | StartsAfter(list, y) :: StartsAfter(KeepRight(list, x), y)
  {
    if list != [] {
      SortedTail(list);
      TrimmedRight(list[0], x);
      KeepRightSorted(list[1..], x, n);
      hide AllOk, Sorted, Within, StartsBefore, TrimRight;
      assert StartsAfter(KeepRight(list[1..], x), End(list[0]));
      JoinLists(TrimRight(list[0], x), KeepRight(list[1..], x), End(list[0]));
      KeptAfter(list, TrimRight(list[0], x) + KeepRight(list[1..], x));
    }
  }

  lemma {:induction false} ConcatSorted(a: seq<Ext>, b: seq<Ext>)
    requires AllOk(a) && AllOk(b) && Sorted(a) && Sorted(b)
    requires forall i, j | 0 <= i < |a| && 0 <= j < |b| :: End(a[i]) <= b[j].ls
    ensures AllOk(a + b) && Sorted(a + b)
  {
    var c := a + b;
    forall i, j | 0 <= i < j < |c| ensures End(c[i]) <= c[j].ls {
      assert c[i] == if i < |a| then a[i] else b[i - |a|];
      assert c[j] == if j < |a| then a[j] else b[j - |a|];
    }
  }

  /** Replacing blocks [gs, ge) of a sorted list by one extent. */
  lemma {:induction false} ReplacedSorted(list: seq<Ext>, e: Ext, n: nat)
    requires AllOk(list) && Sorted(list) && Within(list, n) && ExtOk(e) && End(e) <= n
    ensures var new_ := KeepLeft(list, e.ls) + [e] + KeepRight(list, End(e));
      AllOk(new_) && Sorted(new_) && Within(new_, n)
    ensures CutAll(list, e.ls, End(e)) == KeepLeft(list, e.ls) + KeepRight(list, End(e))
    ensures Owned(KeepLeft(list, e.ls) + [e] + KeepRight(list, End(e)))
      == Owned(CutAll(list, e.ls, End(e))) + multiset(Range(e.ps, e.pc))
  {
    hide KeepLeft, KeepRight, Owned, Range, CutAll;
    var l, r := KeepLeft(list, e.ls), KeepRight(list, End(e));
    CutIsKeep(list, e.ls, End(e));
    KeepLeftSorted(list, e.ls);
    KeepRightSorted(list, End(e), n);
    ConcatSorted(l, [e]);
    ConcatSorted(l + [e], r);
    InsertedOwned(l, e, r);
  }

  lemma {:induction false} InsertedOwned(l: seq<Ext>, e: Ext, r: seq<Ext>)
    ensures Owned(l + [e] + r) == Owned(l + r) + multiset(Range(e.ps, e.pc))
  {
    OwnedConcat(l, r);
    OwnedConcat(l, [e]);
    OwnedConcat(l + [e], r);
    OwnedOne(e);
    hide Owned, Range;
  }

  // ----- content

  /** Compressed extents are exactly one full, aligned group. */
  ghost predicate Aligned(list: seq<Ext>) {
    forall i | 0 <= i < |list| :: Plain(list[i]) || (list[i].ls % GROUP == 0 && list[i].lc == GROUP)
  }

  lemma {:induction false} KeepAligned(list: seq<Ext>, x: nat)
    requires Aligned(list)
    ensures Aligned(KeepLeft(list, x)) && Aligned(KeepRight(list, x))
  {
    if list != [] {
      assert forall i | 0 <= i < |list[1..]| :: list[1..][i] == list[i + 1];
      assert Plain(list[0]) || (list[0].ls % GROUP == 0 && list[0].lc == GROUP);
      KeepAligned(list[1..], x);
      AlignedConcat(TrimLeft(list[0], x), KeepLeft(list[1..], x));
      AlignedConcat(TrimRight(list[0], x), KeepRight(list[1..], x));
    }
  }

  lemma {:induction false} AlignedConcat(a: seq<Ext>, b: seq<Ext>)
    requires Aligned(a) && Aligned(b)
    ensures Aligned(a + b)
  {
  }

  lemma {:induction false} CoalesceAligned(list: seq<Ext>)
    requires Aligned(list)
    ensures Aligned(Coalesce(list))
  {
    if list != [] {
      CoalesceAligned(list[..|list| - 1]);
    }
  }

  /** A group boundary, or the end of the file, cuts no compressed extent. */
  lemma {:induction false} AlignedUncut(list: seq<Ext>, x: nat, cov: nat)
    requires Aligned(list) && Covers(list, 0, cov) && (x % GROUP == 0 || x >= cov)
    ensures Uncut(list, x)
  {
    CoversBounds(list, 0, cov);
  }

  /** The content while groups are being replaced: already written up to block s. */
  function Mixed(x: seq<Block>, y: seq<Block>, s: nat): seq<Block>
    requires s <= |x| == |y|
  {
    y[..s] + x[s..]
  }

  lemma {:induction false} MixedSlice(x: seq<Block>, y: seq<Block>, gs: nat, ge: nat, a: nat, b: nat)
    requires gs <= ge <= |x| == |y| && a < b <= |x| && (b <= gs || a >= ge)
    ensures Mixed(x, y, ge)[a..b] == Mixed(x, y, gs)[a..b]
  {
  }

  /** Extents that end by block s, or start at or after it, do not notice the blocks in between. */
  lemma {:induction false} MixedShows(dev: Device, c: Codec, list: seq<Ext>, x: seq<Block>, y: seq<Block>, gs: nat,
                                      ge: nat)
    requires gs <= ge <= |x| == |y| && Shows(dev, c, list, Mixed(x, y, gs))
    requires forall i | 0 <= i < |list| :: list[i].lc > 0 && (End(list[i]) <= gs || list[i].ls >= ge)
    ensures Shows(dev, c, list, Mixed(x, y, ge))
  {
    var a, b := Mixed(x, y, gs), Mixed(x, y, ge);
    forall i | 0 <= i < |list|
      ensures End(list[i]) <= |b| && b[list[i].ls..End(list[i])] == a[list[i].ls..End(list[i])]
    {
      assert ExtShows(dev, c, list[i], a);
      MixedSlice(x, y, gs, ge, list[i].ls, End(list[i]));
    }
    ShowsPrefix(dev, c, list, a, b);
  }

  lemma {:induction false} ReplacedShows(dev: Device, c: Codec, list: seq<Ext>, l: seq<Ext>, r: seq<Ext>, e: Ext,
                                         cov: nat, x: seq<Block>, y: seq<Block>)
    requires AllOk(list) && Sorted(list) && Within(list, cov) && cov <= |x| == |y| && e.lc > 0 && End(e) <= |x|
    requires l == KeepLeft(list, e.ls) && r == KeepRight(list, End(e))
    requires Shows(dev, c, l + r, Mixed(x, y, e.ls)) && ExtShows(dev, c, e, Mixed(x, y, End(e)))
    ensures Shows(dev, c, l + [e] + r, Mixed(x, y, End(e)))
  {
    hide ExtShows, Mixed, KeepLeft, KeepRight;
    KeepLeftSorted(list, e.ls);
    KeepRightSorted(list, End(e), cov);
    var t := l + r;
    forall i | 0 <= i < |t| ensures t[i].lc > 0 && (End(t[i]) <= e.ls || t[i].ls >= End(e)) {
      assert t[i] == if i < |l| then l[i] else r[i - |l|];
      assert i < |l| ==> ExtOk(l[i]);
      assert i >= |l| ==> ExtOk(r[i - |l|]);
    }
    MixedShows(dev, c, t, x, y, e.ls, End(e));
    var m := Mixed(x, y, End(e));
    ShowsConcat(dev, c, l, r, m);
    ShowsConcat(dev, c, l, [e], m);
    ShowsConcat(dev, c, l + [e], r, m);
  }

  // ----- the new content of one group

  function GroupEnd(g: nat, total: nat): nat {
    if (g + 1) * GROUP > total then total else (g + 1) * GROUP
  }

  /** Blocks from `cov` on are zero. */
  ghost predicate ZeroFrom(x: seq<Block>, cov: nat, bs: nat) {
    forall i | cov <= i < |x| :: x[i] == Zeros(bs)
  }

  /** Overlaying the group buffer gives the group's share of the overlaid file. */
  lemma {:induction false} OverlaidGroup(x: seq<Block>, bs: nat, gs: nat, ge: nat, offset: nat, buf: Bytes)
    requires bs > 0 && AllSized(x, bs) && gs <= ge <= |x|
    ensures var y := OverlayBlocks(x, 0, offset, buf);
      |y| == |x| && AllSized(y, bs) && Split(Overlay(Join(x[gs..ge]), gs * bs, offset, buf), bs) == y[gs..ge]
  {
    var a, b, c := x[..gs], x[gs..ge], x[ge..];
    assert x == a + (b + c);
    OverlayJoin(x, 0, offset, buf);
    OverlayJoin(a, 0, offset, buf);
    OverlayJoin(b, gs * bs, offset, buf);
    JoinLength(a, bs);
    OverlayBlocksConcat(a, b + c, 0, offset, buf);
    OverlayBlocksConcat(b, c, gs * bs, offset, buf);
    SplitJoin(OverlayBlocks(b, gs * bs, offset, buf), bs);
  }

  lemma {:induction false} MixedSized(x: seq<Block>, y: seq<Block>, s: nat, bs: nat)
    requires s <= |x| == |y| && AllSized(x, bs) && AllSized(y, bs)
    ensures AllSized(Mixed(x, y, s), bs) && |Mixed(x, y, s)| == |x|
  {
  }

  /** k is the place of a new extent that starts at block gs. */
  ghost predicate InsertPoint(cur: seq<Ext>, k: nat, gs: nat) {
    && k <= |cur|
    && (forall i | 0 <= i < k :: cur[i].ls < gs)
    && (k < |cur| ==> cur[k].ls >= gs)
  }

  /** After the cut, the new extent goes between what is left and right of it. */
  lemma {:induction false} InsertedBetween(list: seq<Ext>, e: Ext, n: nat, cur: seq<Ext>, k: nat, next: seq<Ext>)
    requires AllOk(list) && Sorted(list) && Within(list, n) && ExtOk(e) && End(e) <= n
    requires cur == CutAll(list, e.ls, End(e)) && InsertPoint(cur, k, e.ls) && next == cur[..k] + [e] + cur[k..]
    ensures next == KeepLeft(list, e.ls) + [e] + KeepRight(list, End(e))
    ensures AllOk(next) && Sorted(next) && Within(next, n)
    ensures Owned(next) == Owned(cur) + multiset(Range(e.ps, e.pc))
  {
    hide Owned, Range, CutAll, KeepLeft, KeepRight;
    var l, r := KeepLeft(list, e.ls), KeepRight(list, End(e));
    ReplacedSorted(list, e, n);
    KeepLeftSorted(list, e.ls);
    KeepRightSorted(list, End(e), n);
    assert cur == l + r;
    forall i | 0 <= i < |cur| ensures cur[i].ls < e.ls <==> i < |l| {
      assert cur[i] == if i < |l| then l[i] else r[i - |l|];
    }
    assert k < |cur| ==> !(cur[k].ls < e.ls);
    assert |l| < |cur| ==> !(cur[|l|].ls < e.ls);
    assert k == |l|;
    assert cur[..k] == l && cur[k..] == r;
  }

  /** The content side of replacing a group. */
  lemma {:induction false} GroupWritten(dev0: Device, dev: Device, c: Codec, list: seq<Ext>, e: Ext, x: seq<Block>,
                                        z: seq<Block>, blocks: seq<Block>)
    requires AllOk(list) && Sorted(list) && Within(list, |x|) && |x| == |z| && ExtOk(e) && End(e) <= |x|
    requires Shows(dev0, c, list, Mixed(x, z, e.ls))
    requires SameOn(dev0, dev, Owned(CutAll(list, e.ls, End(e))))
    requires blocks == z[e.ls..End(e)] && ExtShows(dev, c, Ext(0, |blocks|, e.ps, e.pc), blocks)
    ensures Shows(dev, c, KeepLeft(list, e.ls) + [e] + KeepRight(list, End(e)), Mixed(x, z, End(e)))
  {
    hide KeepLeft, KeepRight, Owned, CutAll, Shows, ExtShows, SameOn;
    var l, r, k := KeepLeft(list, e.ls), KeepRight(list, End(e)), Mixed(x, z, e.ls);
    CutIsKeep(list, e.ls, End(e));
    KeepLeftShows(dev0, c, list, k, e.ls);
    KeepRightShows(dev0, c, list, k, End(e));
    ShowsConcat(dev0, c, l, r, k);
    ShowsFrame(dev0, dev, c, l + r, k);
    assert Mixed(x, z, End(e))[e.ls..End(e)] == blocks;
    GroupAt(dev, c, blocks, e.ps, e.pc, Mixed(x, z, End(e)), e.ls);
    ReplacedShows(dev, c, list, l, r, e, |x|, x, z);
  }

  lemma {:induction false} CoalesceSorted(list: seq<Ext>)
    requires AllOk(list) && Sorted(list)
    ensures AllOk(Coalesce(list)) && Sorted(Coalesce(list))
  {
    var n := if list == [] then 0 else End(list[|list| - 1]);
    forall i | 0 <= i < |list| ensures End(list[i]) <= n {
      assert i < |list| - 1 ==> End(list[i]) <= list[|list| - 1].ls;
    }
    CoalesceCorrect(list, n);
  }

  // ----- whole files

  /** The file has no holes and reads as the given blocks. */
  ghost predicate Holds(dev: Device, c: Codec, bs: nat, f: File, content: seq<Block>)
    requires bs > 0
  {
    && |content| == CeilDiv(f.size, bs) && AllSized(content, bs)
    && Covers(Collect(f), 0, |content|) && Shows(dev, c, Collect(f), content)
  }

  /** The content extended with zero blocks to n blocks. */
  function Extended(content: seq<Block>, n: nat, bs: nat): seq<Block> {
    if n <= |content| then content else content + seq(n - |content|, _ => Zeros(bs))
  }

  /** The blocks of a file after `buf` was written at byte `offset`, the file then having n blocks. */
  function Written(content: seq<Block>, n: nat, bs: nat, offset: nat, buf: Bytes): seq<Block> {
    OverlayBlocks(Extended(content, n, bs), 0, offset, buf)
  }

  /** Storing a list that covers and shows the content makes the file hold it. */
  lemma {:induction false} StoredHolds(dev: Device, c: Codec, bs: nat, f: File, list: seq<Ext>, content: seq<Block>)
    requires bs > 0 && AllOk(list) && Covers(list, 0, |content|) && Shows(dev, c, list, content)
    requires Stores(f, Coalesce(list)) && |content| == CeilDiv(f.size, bs) && AllSized(content, bs)
    ensures Holds(dev, c, bs, f, content)
    ensures Aligned(list) ==> Aligned(Collect(f))
  {
    StoreRoundTrip(f, list, |content|);
    CoalesceShows(dev, c, list, content);
    if Aligned(list) {
      CoalesceAligned(list);
    }
  }

  // ----- the groups touched by a write

  /** Blocks and groups touched by writing `len` > 0 bytes at `offset` into a file of `size` bytes. */
  datatype Touched = Touched(oldBlocks: nat, blocks: nat, first: nat, last: nat)

  function TouchedBy(bs: nat, offset: nat, len: nat, size: nat): Touched
    requires bs > 0 && len > 0
  {
    Touched(CeilDiv(size, bs), CeilDiv(if offset + len > size then offset + len else size, bs),
            offset / bs / GROUP, (offset + len - 1) / bs / GROUP)
  }

  ghost predicate TouchedOk(t: Touched, bs: nat, offset: nat, len: nat, size: nat) {
    && t.first <= t.last && t.last * GROUP < t.blocks && t.oldBlocks <= t.blocks
    && t.first * GROUP * bs <= offset
    && (GroupEnd(t.last, t.blocks) == t.blocks || GroupEnd(t.last, t.blocks) * bs >= offset + len)
    && (offset <= size ==> t.first * GROUP <= t.oldBlocks)
    && (t.blocks == t.oldBlocks || t.blocks <= GroupEnd(t.last, t.blocks))
  }

  lemma {:induction false} TouchedGroups(bs: nat, offset: nat, len: nat, size: nat)
    requires bs > 0 && len > 0
    ensures TouchedOk(TouchedBy(bs, offset, len, size), bs, offset, len, size)
  {
    var t, fb, lb := TouchedBy(bs, offset, len, size), offset / bs, (offset + len - 1) / bs;
    var top := if offset + len > size then offset + len else size;
    FirstBlock(bs, offset, size);
    LastBlock(bs, offset + len, top);
    CeilDivMonotone(size, top, bs);
    DivMonotone(offset, offset + len - 1, bs);
    GroupsOf(bs, fb, lb, t.blocks);
    assert t.oldBlocks == CeilDiv(size, bs) && t.blocks == CeilDiv(top, bs);
    TouchedNamed(t, bs, offset, len, size, fb, lb);
  }

  /** Some written byte lies in group g. */
  ghost predicate TouchesGroup(bs: nat, offset: nat, len: nat, g: nat)
    requires bs > 0
  {
    exists p :: offset <= p < offset + len && GroupOf(p, bs) == g
  }

  function GroupOf(p: nat, bs: nat): nat
    requires bs > 0
  {
    p / bs / GROUP
  }

  /** The touched groups are exactly those in which some byte is written. */
  lemma {:induction false} TouchedExactly(bs: nat, offset: nat, len: nat, size: nat, g: nat)
    requires bs > 0 && len > 0
    ensures var t := TouchedBy(bs, offset, len, size); t.first <= g <= t.last <==> TouchesGroup(bs, offset, len, g)
  {
    var t := TouchedBy(bs, offset, len, size);
    if TouchesGroup(bs, offset, len, g) {
      var p :| offset <= p < offset + len && GroupOf(p, bs) == g;
      DivMonotone(offset, p, bs);
      DivMonotone(p, offset + len - 1, bs);
    }
    if g == t.first {
      assert GroupOf(offset, bs) == g;
    } else if t.first < g <= t.last {
      GroupStart(bs, offset, offset + len - 1, g);
      assert GroupOf(g * GROUP * bs, bs) == g;
    }
  }

  /** A later group up to that of byte `last` starts behind `offset`, and no later than `last`. */
  lemma {:induction false} GroupStart(bs: nat, offset: nat, last: nat, g: nat)
    requires bs > 0 && offset / bs / GROUP < g <= last / bs / GROUP
    ensures g * GROUP * bs / bs == g * GROUP && offset <= g * GROUP * bs <= last
  {
    DivModUnique(g * GROUP * bs, bs, g * GROUP, 0);
    if g * GROUP * bs < offset {
      DivMonotone(g * GROUP * bs, offset, bs);
    }
    if last < g * GROUP * bs {
      BelowMultiple(last, g * GROUP, bs);
    }
  }

  lemma {:induction false} BelowMultiple(p: nat, k: nat, bs: nat)
    requires bs > 0 && p < k * bs
    ensures p / bs < k
  {
    if p / bs >= k {
      MulMonotone(k, p / bs, bs);
    }
  }

  lemma {:induction false} TouchedNamed(t: Touched, bs: nat, offset: nat, len: nat, size: nat, fb: nat, lb: nat)
    requires t.first == fb / GROUP && t.last == lb / GROUP && fb <= lb < t.blocks && t.oldBlocks <= t.blocks
    requires fb * bs <= offset && offset + len <= (lb + 1) * bs
    requires offset <= size ==> fb <= t.oldBlocks
    requires offset + len > size ==> t.blocks == lb + 1
    requires offset + len <= size ==> t.blocks == t.oldBlocks
    ensures TouchedOk(t, bs, offset, len, size)
  {
    GroupsOf(bs, fb, lb, t.blocks);
  }

  lemma {:induction false} GroupsOf(bs: nat, fb: nat, lb: nat, n: nat)
    requires fb <= lb < n
    ensures var first, last := fb / GROUP, lb / GROUP;
      && first <= last && last * GROUP < n && first * GROUP <= fb && first * GROUP * bs <= fb * bs
      && lb + 1 <= GroupEnd(last, n)
      && (GroupEnd(last, n) == n || GroupEnd(last, n) * bs >= (lb + 1) * bs)
  {
    MulMonotone(fb / GROUP * GROUP, fb, bs);
    MulMonotone(lb + 1, GroupEnd(lb / GROUP, n), bs);
  }

  lemma {:induction false} FirstBlock(bs: nat, offset: nat, size: nat)
    requires bs > 0
    ensures offset / bs * bs <= offset
    ensures offset <= size ==> offset / bs <= CeilDiv(size, bs)
  {
    DivBounds(offset, bs);
    DivMonotone(offset, offset + bs - 1, bs);
    CeilDivMonotone(offset, if offset <= size then size else offset, bs);
  }

  lemma {:induction false} LastBlock(bs: nat, end: nat, top: nat)
    requires bs > 0 && 0 < end <= top
    ensures (end - 1) / bs < CeilDiv(top, bs) && end <= ((end - 1) / bs + 1) * bs
    ensures end == top ==> CeilDiv(top, bs) == (end - 1) / bs + 1
  {
    DivBounds(end - 1, bs);
    SubtractOne(end - 1 + bs, bs);
    CeilDivMonotone(end, top, bs);
  }

  lemma {:induction false} CeilDivMonotone(a: nat, b: nat, bs: nat)
    requires bs > 0 && a <= b
    ensures CeilDiv(a, bs) <= CeilDiv(b, bs)
  {
    DivMonotone(a + bs - 1, b + bs - 1, bs);
  }

  lemma {:induction false} DivBounds(a: nat, bs: nat)
    requires bs > 0
    ensures a / bs * bs <= a < (a / bs + 1) * bs
  {
    assert a == a / bs * bs + a % bs;
  }

  lemma {:induction false} DivMonotone(a: nat, b: nat, bs: nat)
    requires bs > 0 && a <= b
    ensures a / bs <= b / bs
  {
    DivBounds(a, bs);
    DivBounds(b, bs);
    if a / bs > b / bs {
      MulMonotone(b / bs + 1, a / bs, bs);
    }
  }

  lemma {:induction false} MulMonotone(a: nat, b: nat, bs: nat)
    requires a <= b
    ensures a * bs <= b * bs
  {
    assert b * bs == a * bs + (b - a) * bs;
  }

  /** Before the first touched group the written content equals the old one, from the end of the last
      touched group on too. */
  lemma {:induction false} UntouchedBlocks(x: seq<Block>, bs: nat, offset: nat, buf: Bytes, s: nat)
    requires bs > 0 && AllSized(x, bs) && s <= |x|
    ensures var y := OverlayBlocks(x, 0, offset, buf);
      && |y| == |x|
      && (s * bs <= offset ==> Mixed(x, y, s) == x)
      && ((s == |x| || s * bs >= offset + |buf|) ==> Mixed(x, y, s) == y)
  {
    var y := OverlayBlocks(x, 0, offset, buf);
    var a, b := x[..s], x[s..];
    assert x == a + b;
    OverlayJoin(x, 0, offset, buf);
    OverlayJoin(a, 0, offset, buf);
    JoinLength(a, bs);
    OverlayBlocksConcat(a, b, 0, offset, buf);
    var ya, yb := OverlayBlocks(a, 0, offset, buf), OverlayBlocks(b, s * bs, offset, buf);
    assert y == ya + yb && y[..s] == ya && y[s..] == yb;
    if s * bs <= offset {
      OverlayOutside(a, 0, offset, buf);
    }
    if s == |x| {
      assert b == [] && yb == [];
    } else if s * bs >= offset + |buf| {
      OverlayOutside(b, s * bs, offset, buf);
    }
  }

  lemma {:induction false} ExtendedProps(content: seq<Block>, n: nat, bs: nat)
    requires AllSized(content, bs) && |content| <= n
    ensures |Extended(content, n, bs)| == n && AllSized(Extended(content, n, bs), bs)
    ensures ZeroFrom(Extended(content, n, bs), |content|, bs)
  {
  }

  /** A list shows an extended content if it shows the content. */
  lemma {:induction false} ShowsExtended(dev: Device, c: Codec, list: seq<Ext>, content: seq<Block>, n: nat, bs: nat)
    requires Shows(dev, c, list, content)
    ensures Shows(dev, c, list, Extended(content, n, bs))
  {
    var x := Extended(content, n, bs);
    forall i | 0 <= i < |list|
      ensures End(list[i]) <= |x| && x[list[i].ls..End(list[i])] == content[list[i].ls..End(list[i])]
    {
      assert ExtShows(dev, c, list[i], content);
    }
    ShowsPrefix(dev, c, list, content, x);
  }

  // ----- the loop over the touched groups

  function NewSize(size: nat, offset: nat, len: nat): nat {
    if offset + len > size then offset + len else size
  }

  /** Where the written part ends before group g is processed. */
  function Boundary(g: nat, t: Touched): nat {
    if g <= t.last then g * GROUP else GroupEnd(t.last, t.blocks)
  }

  lemma {:induction false} SlotsOf(f: File)
    requires LayoutOk(f)
    ensures |f.slots| == INLINE
  {
  }

  lemma {:induction false} SizeOnly(f: File, size: nat)
    ensures Collect(f.(size := size)) == Collect(f)
    ensures LayoutOk(f) ==> LayoutOk(f.(size := size))
  {
  }
}
