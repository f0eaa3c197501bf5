/** What rebuilding the touched groups of a file does to its extents and its content, for any gapless file. */
module GroupRewrites {
  import opened Blocks
  import opened Extents
  import opened Coalescing
  import opened Cuts
  import opened FileLayout
  import opened FileContent
  import opened FileWrites
  import opened FileRead

  // ----- the shape of the list

  /** A list with blocks [from, to) replaced by new extents. */
  function Rebuilt(list: seq<Ext>, news: seq<Ext>, from: nat, to: nat): seq<Ext> {
    KeepLeft(list, from) + news + KeepRight(list, to)
  }

  /** Before group g is rebuilt: the original list, or the original list with the groups so far replaced. */
  ghost predicate InRewrite(list0: seq<Ext>, list: seq<Ext>, news: seq<Ext>, t: Touched, g: nat) {
    && t.first <= g <= t.last + 1
    && (if g == t.first then list == list0 && news == []
        else list == Rebuilt(list0, news, t.first * GROUP, Boundary(g, t)))
    && Covers(news, t.first * GROUP, Boundary(g, t)) && Aligned(news)
  }

  lemma {:induction false} RewriteStarts(list: seq<Ext>, t: Touched)
    requires t.first <= t.last
    ensures InRewrite(list, list, [], t, t.first)
  {
  }

  /** Replacing group g in the rebuilt list replaces one more group of the original list. */
  lemma {:induction false} RewriteStep(list0: seq<Ext>, list: seq<Ext>, news: seq<Ext>, t: Touched, g: nat, e: Ext)
    requires AllOk(list0) && Sorted(list0) && InRewrite(list0, list, news, t, g) && g <= t.last
    requires e.ls == g * GROUP && End(e) == GroupEnd(g, t.blocks) && ExtOk(e) && t.last * GROUP < t.blocks
    ensures InRewrite(list0, KeepLeft(list, e.ls) + [e] + KeepRight(list, End(e)), news + [e], t, g + 1)
  {
    hide KeepLeft, KeepRight;
    var from, gs, ge := t.first * GROUP, e.ls, End(e);
    assert Covers([e], gs, ge) by { assert [e][1..] == []; }
    CoversConcat(news, [e], from, gs, ge);
    AlignedConcat(news, [e]);
    assert Boundary(g + 1, t) == ge && Boundary(g, t) == gs;
    if g == t.first {
      assert news + [e] == [e];
    } else {
      RebuiltAgain(list0, news, from, gs, ge);
      Regrouped(KeepLeft(list0, from), news, [e], KeepRight(list0, ge));
    }
  }

  lemma {:induction false} Regrouped<T>(a: seq<T>, b: seq<T>, c: seq<T>, d: seq<T>)
    ensures (a + b) + c + d == a + (b + c) + d
  {
  }

  /** The part of a rebuilt list left of block gs is the part already rebuilt; right of ge it is the original. */
  lemma {:induction false} RebuiltAgain(list0: seq<Ext>, news: seq<Ext>, from: nat, gs: nat, ge: nat)
    requires AllOk(list0) && Sorted(list0) && from <= gs <= ge && Covers(news, from, gs)
    ensures var list := Rebuilt(list0, news, from, gs);
      KeepLeft(list, gs) == KeepLeft(list0, from) + news && KeepRight(list, ge) == KeepRight(list0, ge)
  {
    hide KeepLeft, KeepRight;
    var l, r := KeepLeft(list0, from), KeepRight(list0, gs);
    SomeEnd(list0);
    var n :| Within(list0, n);
    KeepLeftSorted(list0, from);
    KeepRightSorted(list0, gs, n);
    CoversBounds(news, from, gs);
    var done := l + news;
    forall i | 0 <= i < |done| ensures End(done[i]) <= gs && done[i].lc > 0 {
      assert done[i] == if i < |l| then l[i] else news[i - |l|];
      assert i < |l| ==> ExtOk(l[i]);
    }
    forall i | 0 <= i < |r| ensures r[i].lc > 0 {
      assert ExtOk(r[i]);
    }
    forall i | 0 <= i < |list0| ensures list0[i].lc > 0 {
      assert ExtOk(list0[i]);
    }
    KeepConcat(done, r, gs);
    KeepConcat(done, r, ge);
    AllLeft(done, gs);
    NothingLeft(r, gs);
    NoneRight(done, ge);
    KeepRightTwice(list0, gs, ge);
  }

  lemma {:induction false} SomeEnd(list: seq<Ext>)
    requires Sorted(list) && AllOk(list)
    ensures exists n: nat :: Within(list, n)
  {
    var n := if list == [] then 0 else End(list[|list| - 1]);
    forall i | 0 <= i < |list| ensures End(list[i]) <= n {
      assert i < |list| - 1 ==> End(list[i]) <= list[|list| - 1].ls;
    }
    assert Within(list, n);
  }

  // ----- coverage

  /** No compressed extent is cut at either end of the touched groups. */
  ghost predicate CutsNothing(list: seq<Ext>, t: Touched) {
    Uncut(list, t.first * GROUP) && Uncut(list, GroupEnd(t.last, t.blocks))
  }

  /** The rebuilt list is gapless exactly when no compressed extent is cut at either end. */
  lemma {:induction false} RebuiltCovers(list: seq<Ext>, news: seq<Ext>, from: nat, to: nat, cov: nat, total: nat)
    requires Covers(list, 0, cov) && from <= cov && from < to && Covers(news, from, to)
    requires total == if cov > to then cov else to
    ensures Covers(Rebuilt(list, news, from, to), 0, total) <==> Uncut(list, from) && Uncut(list, to)
  {
    hide KeepLeft, KeepRight, Uncut;
    var l, r := KeepLeft(list, from), KeepRight(list, to);
    if Uncut(list, from) && Uncut(list, to) {
      KeepLeftCovers(list, 0, cov, from);
      KeepRightCovers(list, 0, cov, to);
      CoversConcat(l, news, 0, from, to);
      CoversConcat(l + news, r, 0, to, total);
    }
    if Covers(l + news + r, 0, total) {
      var y := CoversSplit(l + news, r, 0, total);
      var z := CoversSplit(l, news, 0, y);
      assert news != [];
      CoversEnd(news, from, to, y);
      LeftCutExact(list, cov, from);
      if to <= cov {
        RightCutExact(list, cov, to);
      } else {
        PastEndUncut(list, cov, to);
      }
    }
  }

  lemma {:induction false} PastEndUncut(list: seq<Ext>, cov: nat, x: nat)
    requires Covers(list, 0, cov) && cov <= x
    ensures Uncut(list, x)
  {
    CoversBounds(list, 0, cov);
  }

  /** In a list whose compressed extents are whole groups no group boundary cuts one. */
  lemma {:induction false} AlignedCutsNothing(list: seq<Ext>, t: Touched, cov: nat)
    requires Aligned(list) && Covers(list, 0, cov) && cov <= t.blocks
    ensures CutsNothing(list, t)
  {
    AlignedUncut(list, t.first * GROUP, cov);
    AlignedUncut(list, GroupEnd(t.last, t.blocks), cov);
  }

  lemma {:induction false} RebuiltAligned(list: seq<Ext>, news: seq<Ext>, from: nat, to: nat)
    requires Aligned(list) && Aligned(news)
    ensures Aligned(Rebuilt(list, news, from, to))
  {
    KeepAligned(list, from);
    KeepAligned(list, to);
    AlignedConcat(KeepLeft(list, from), news);
    AlignedConcat(KeepLeft(list, from) + news, KeepRight(list, to));
  }

  // ----- content

  /** Block b is no longer in the list when its group is rebuilt: the compressed extent that held it was given
      up with the group before. */
  ghost predicate Dropped(list: seq<Ext>, t: Touched, b: nat) {
    t.first < b / GROUP <= t.last && !Has(KeepRight(list, b / GROUP * GROUP), b)
  }

  /** The content that the rewrite lays the new bytes over. */
  ghost function Remaining(list: seq<Ext>, x: seq<Block>, t: Touched, bs: nat): seq<Block> {
    seq(|x|, b requires 0 <= b < |x| => if Dropped(list, t, b) then Zeros(bs) else x[b])
  }

  lemma {:induction false} RemainingSized(list: seq<Ext>, x: seq<Block>, t: Touched, bs: nat)
    requires AllSized(x, bs)
    ensures |Remaining(list, x, t, bs)| == |x| && AllSized(Remaining(list, x, t, bs), bs)
  {
    hide Dropped;
  }

  /** Outside the later touched groups nothing is missing. */
  lemma {:induction false} RemainingOutside(list: seq<Ext>, x: seq<Block>, t: Touched, bs: nat)
    requires t.first <= t.last && t.last * GROUP < t.blocks == |x|
    ensures var r, from, to := Remaining(list, x, t, bs), t.first * GROUP, GroupEnd(t.last, t.blocks);
      |r| == |x| && r[..from] == x[..from] && r[to..] == x[to..]
  {
    var r, from, to := Remaining(list, x, t, bs), t.first * GROUP, GroupEnd(t.last, t.blocks);
    forall b | 0 <= b < from ensures r[b] == x[b] {
      assert b / GROUP < t.first;
    }
    forall b | to <= b < |x| ensures r[b] == x[b] {
      assert b / GROUP > t.last;
    }
  }

  /** Blocks that no extent holds are zero. */
  ghost predicate ZeroOutside(list: seq<Ext>, x: seq<Block>, bs: nat) {
    forall b | 0 <= b < |x| && !Has(list, b) :: x[b] == Zeros(bs)
  }

  lemma {:induction false} CoveredOutside(list: seq<Ext>, x: seq<Block>, cov: nat, bs: nat)
    requires Covers(list, 0, cov) && ZeroFrom(x, cov, bs)
    ensures ZeroOutside(list, x, bs)
  {
    hide Covers, Has;
    forall b | 0 <= b < |x| && !Has(list, b) ensures x[b] == Zeros(bs) {
      if b < cov {
        HasCovered(list, 0, cov, b);
      }
    }
  }

  lemma {:induction false} MixedTail(x: seq<Block>, z: seq<Block>, s: nat)
    requires s <= |x| == |z|
    ensures |Mixed(x, z, s)| == |x| && Mixed(x, z, s)[s..] == x[s..]
  {
  }

  /** What the list shows of group g when its turn comes is what remains. */
  lemma {:induction false} GroupSeen(list0: seq<Ext>, list: seq<Ext>, news: seq<Ext>, t: Touched, g: nat,
                                     x: seq<Block>, z: seq<Block>, bs: nat)
    requires AllOk(list0) && Sorted(list0) && InRewrite(list0, list, news, t, g) && g <= t.last
    requires |x| == |z| == t.blocks && t.last * GROUP < t.blocks && ZeroOutside(list0, x, bs)
    ensures var gs, ge := g * GROUP, GroupEnd(g, t.blocks);
      gs < ge && ListView(list, Mixed(x, z, gs), gs, ge, bs) == Remaining(list0, x, t, bs)[gs..ge]
  {
    hide InRewrite, ZeroOutside, Sorted, AllOk, Has, Dropped, Mixed;
    var gs, ge := g * GROUP, GroupEnd(g, t.blocks);
    assert g * GROUP <= t.last * GROUP;
    MixedTail(x, z, gs);
    var v, r := ListView(list, Mixed(x, z, gs), gs, ge, bs), Remaining(list0, x, t, bs)[gs..ge];
    forall i | 0 <= i < ge - gs ensures v[i] == r[i] {
      BlockSeen(list0, list, news, t, g, x, bs, gs + i);
      assert x[gs..][i] == x[gs + i];
      assert Mixed(x, z, gs)[gs..][i] == Mixed(x, z, gs)[gs + i];
    }
  }

  lemma {:induction false} BlockSeen(list0: seq<Ext>, list: seq<Ext>, news: seq<Ext>, t: Touched, g: nat,
                                     x: seq<Block>, bs: nat, b: nat)
    requires AllOk(list0) && Sorted(list0) && InRewrite(list0, list, news, t, g) && g <= t.last
    requires g * GROUP <= b < (g + 1) * GROUP && b < |x| && ZeroOutside(list0, x, bs)
    ensures (if Has(list, b) then x[b] else Zeros(bs)) == (if Dropped(list0, t, b) then Zeros(bs) else x[b])
  {
    hide Has, KeepLeft, KeepRight;
    var gs := g * GROUP;
    assert b / GROUP == g;
    if g != t.first {
      var from := t.first * GROUP;
      var l, r := KeepLeft(list0, from), KeepRight(list0, gs);
      HasConcat(l + news, r, b);
      HasConcat(l, news, b);
      HasCovered(news, from, gs, b);
      KeepLeftSorted(list0, from);
      NotBehind(l, from, b);
    }
  }

  lemma {:induction false} NotBehind(list: seq<Ext>, n: nat, b: nat)
    requires Within(list, n) && n <= b
    ensures !Has(list, b)
  {
  }

  /** The rewritten content: the new bytes over what remains. */
  ghost function Overwritten(list: seq<Ext>, x: seq<Block>, t: Touched, bs: nat, offset: nat, buf: Bytes): seq<Block> {
    OverlayBlocks(Remaining(list, x, t, bs), 0, offset, buf)
  }

  /** The content before the first and after the last touched group. */
  lemma {:induction false} OverwrittenEnds(list: seq<Ext>, x: seq<Block>, t: Touched, bs: nat, offset: nat, buf: Bytes,
                                           size: nat)
    requires bs > 0 && |buf| > 0 && TouchedOk(t, bs, offset, |buf|, size) && |x| == t.blocks && AllSized(x, bs)
    ensures var z := Overwritten(list, x, t, bs, offset, buf);
      |z| == |x| && AllSized(z, bs) && Mixed(x, z, t.first * GROUP) == x && Mixed(x, z, GroupEnd(t.last, t.blocks)) == z
  {
    hide Dropped, OverlayBlocks, Remaining;
    var r, from, to := Remaining(list, x, t, bs), t.first * GROUP, GroupEnd(t.last, t.blocks);
    RemainingSized(list, x, t, bs);
    RemainingOutside(list, x, t, bs);
    OverlayJoin(r, 0, offset, buf);
    UntouchedBlocks(r, bs, offset, buf, from);
    UntouchedBlocks(r, bs, offset, buf, to);
    hide AllSized;
    EndsAgree(x, r, Overwritten(list, x, t, bs, offset, buf), from, to);
  }

  lemma {:induction false} EndsAgree(x: seq<Block>, r: seq<Block>, z: seq<Block>, from: nat, to: nat)
    requires from <= to <= |x| == |r| == |z| && r[..from] == x[..from] && r[to..] == x[to..]
    requires Mixed(r, z, from) == r && Mixed(r, z, to) == z
    ensures Mixed(x, z, from) == x && Mixed(x, z, to) == z
  {
    assert z[..from] == Mixed(r, z, from)[..from];
    assert z[to..] == Mixed(r, z, to)[to..];
  }

  // ----- when nothing is lost

  /** Every byte of block b that the write does not replace is zero. */
  ghost predicate RestZero(x: seq<Block>, b: nat, bs: nat, offset: nat, len: nat)
    requires b < |x|
  {
    forall k {:trigger x[b][k]} | 0 <= k < |x[b]| && !(offset <= b * bs + k < offset + len) :: x[b][k] == 0
  }

  /** What the write drops and does not replace was zero. */
  ghost predicate DropsZeros(list: seq<Ext>, x: seq<Block>, t: Touched, bs: nat, offset: nat, len: nat) {
    forall b | 0 <= b < |x| && Dropped(list, t, b) :: RestZero(x, b, bs, offset, len)
  }

  lemma {:induction false} OverlayAt(x: seq<Block>, bs: nat, offset: nat, buf: Bytes, b: nat)
    requires AllSized(x, bs) && b < |x|
    ensures |OverlayBlocks(x, 0, offset, buf)| == |x|
    ensures OverlayBlocks(x, 0, offset, buf)[b] == Overlay(x[b], b * bs, offset, buf)
  {
    hide Overlay;
    var a, c := x[..b], x[b..];
    assert x == a + c;
    OverlayJoin(x, 0, offset, buf);
    OverlayJoin(a, 0, offset, buf);
    OverlayBlocksConcat(a, c, 0, offset, buf);
    JoinLength(a, bs);
    assert OverlayBlocks(c, b * bs, offset, buf)[0] == Overlay(c[0], b * bs, offset, buf);
  }

  lemma {:induction false} ZeroedSame(s: Block, bs: nat, base: nat, offset: nat, buf: Bytes)
    requires |s| == bs
    ensures Overlay(Zeros(bs), base, offset, buf) == Overlay(s, base, offset, buf)
      <==> forall k | 0 <= k < |s| && !(offset <= base + k < offset + |buf|) :: s[k] == 0
  {
    var a, b := Overlay(Zeros(bs), base, offset, buf), Overlay(s, base, offset, buf);
    if a == b {
      forall k | 0 <= k < |s| && !(offset <= base + k < offset + |buf|) ensures s[k] == 0 {
        assert a[k] == b[k];
      }
    }
  }

  /** The rewrite gives the written content exactly when what it drops and does not replace was zero. */
  lemma {:induction false} OverwrittenIsWritten(list: seq<Ext>, x: seq<Block>, t: Touched, bs: nat, offset: nat,
                                                buf: Bytes)
    requires bs > 0 && AllSized(x, bs)
    ensures Overwritten(list, x, t, bs, offset, buf) == OverlayBlocks(x, 0, offset, buf)
      <==> DropsZeros(list, x, t, bs, offset, |buf|)
  {
    hide Dropped, OverlayBlocks, Overlay;
    var r := Remaining(list, x, t, bs);
    RemainingSized(list, x, t, bs);
    OverlayJoin(x, 0, offset, buf);
    OverlayJoin(r, 0, offset, buf);
    var y, z := OverlayBlocks(x, 0, offset, buf), OverlayBlocks(r, 0, offset, buf);
    forall b | 0 <= b < |x| ensures z[b] == y[b] <==> (Dropped(list, t, b) ==> RestZero(x, b, bs, offset, |buf|)) {
      OverlayAt(x, bs, offset, buf, b);
      OverlayAt(r, bs, offset, buf, b);
      ZeroedSame(x[b], bs, b * bs, offset, buf);
    }
    if y == z {
      forall b | 0 <= b < |x| && Dropped(list, t, b) ensures RestZero(x, b, bs, offset, |buf|) {
        assert z[b] == y[b];
      }
    }
  }

  /** Whole groups drop nothing. */
  lemma {:induction false} AlignedDropsNothing(list: seq<Ext>, x: seq<Block>, t: Touched, bs: nat, offset: nat,
                                               len: nat, cov: nat)
    requires Aligned(list) && Covers(list, 0, cov) && cov <= |x| && ZeroFrom(x, cov, bs)
    ensures DropsZeros(list, x, t, bs, offset, len)
  {
    forall b | 0 <= b < |x| && Dropped(list, t, b) ensures RestZero(x, b, bs, offset, len) {
      if b < cov {
        LostRight(list, cov, b / GROUP * GROUP, b);
        var i :| 0 <= i < |list| && Across(list[i], b / GROUP * GROUP, b);
        WholeGroup(list[i].ls, b);
        assert false;
      }
    }
  }

  lemma {:induction false} WholeGroup(ls: nat, b: nat)
    requires ls % GROUP == 0 && ls <= b < ls + GROUP
    ensures ls == b / GROUP * GROUP
  {
  }

  // ----- what a rewrite has to read

  /** The blocks of the extent before block `to` can be read: they are on the device, or the extent unpacks. */
  ghost predicate Readable(dev: Device, c: Codec, e: Ext, to: nat) {
    if Plain(e) then e.ps + (to - e.ls) <= |dev| else Unpacks(dev, c, e)
  }

  /** The blocks are those that the extent has from `off` on: the device's, or the unpacked ones, with zeros behind
      them. */
  ghost predicate Gives(dev: Device, c: Codec, bs: nat, e: Ext, off: nat, blocks: seq<Block>)
    requires bs > 0
  {
    if Plain(e) then e.ps + off + |blocks| <= |dev| && blocks == dev[e.ps + off..e.ps + off + |blocks|]
    else exists x :: UnpacksTo(dev, c, e.ps, e.pc, x) && blocks == Split(SliceOrZero(x, off * bs, |blocks| * bs), bs)
  }

  /** All that the list holds of blocks [gs, ge) can be read. */
  ghost predicate GroupReadable(dev: Device, c: Codec, list: seq<Ext>, gs: nat, ge: nat) {
    forall i | 0 <= i < |list| :: OverlapReadable(dev, c, list[i], gs, ge)
  }

  ghost predicate OverlapReadable(dev: Device, c: Codec, e: Ext, gs: nat, ge: nat) {
    End(e) <= gs || e.ls >= ge || Readable(dev, c, e, OverlapEnd(e, ge))
  }

  lemma {:induction false} ReadableConcat(dev: Device, c: Codec, a: seq<Ext>, b: seq<Ext>, gs: nat, ge: nat)
    ensures GroupReadable(dev, c, a + b, gs, ge)
      <==> GroupReadable(dev, c, a, gs, ge) && GroupReadable(dev, c, b, gs, ge)
    ensures Within(a, gs) ==> GroupReadable(dev, c, a, gs, ge)
  {
    hide Readable;
    var t := a + b;
    assert forall i | 0 <= i < |a| :: t[i] == a[i];
    assert forall i | 0 <= i < |b| :: t[|a| + i] == b[i];
  }

  lemma {:induction false} UnpacksFrame(dev: Device, dev': Device, c: Codec, e: Ext)
    requires SameOn(dev, dev', multiset(Range(e.ps, e.pc)))
    ensures Unpacks(dev, c, e) <==> Unpacks(dev', c, e)
  {
    hide Unpacked, Join;
    if e.ps + e.pc <= |dev| {
      forall x | e.ps <= x < e.ps + e.pc ensures dev[x] == dev'[x] {
        assert Range(e.ps, e.pc)[x - e.ps] == x;
        assert x in multiset(Range(e.ps, e.pc));
      }
      assert dev[e.ps..e.ps + e.pc] == dev'[e.ps..e.ps + e.pc];
      forall x ensures UnpacksTo(dev, c, e.ps, e.pc, x) <==> UnpacksTo(dev', c, e.ps, e.pc, x) {
      }
    }
  }

  lemma {:induction false} ReadableFrame(dev: Device, dev': Device, c: Codec, list: seq<Ext>, gs: nat, ge: nat)
    requires SameOn(dev, dev', Owned(list))
    ensures GroupReadable(dev, c, list, gs, ge) <==> GroupReadable(dev', c, list, gs, ge)
  {
    forall i | 0 <= i < |list|
      ensures OverlapReadable(dev, c, list[i], gs, ge) <==> OverlapReadable(dev', c, list[i], gs, ge)
    {
      OwnedMember(list, i);
      SameOnLess(dev, dev', multiset(Range(list[i].ps, list[i].pc)), Owned(list));
      UnpacksFrame(dev, dev', c, list[i]);
      hide Unpacks;
    }
  }

  lemma {:induction false} SameOnLess(dev: Device, dev': Device, a: multiset<Lba>, b: multiset<Lba>)
    requires SameOn(dev, dev', b) && a <= b
    ensures SameOn(dev, dev', a)
  {
    forall x | x in a && x < |dev| ensures dev[x] == dev'[x] {
      assert a[x] <= b[x];
    }
  }

  lemma {:induction false} TrimRightOwned(e: Ext, x: nat)
    requires ExtOk(e)
    ensures Owned(TrimRight(e, x)) <= multiset(Range(e.ps, e.pc))
  {
    var t := TrimRight(e, x);
    if t != [] {
      OwnedOne(t[0]);
      assert t == [t[0]];
      if e.ls < x {
        RangeSplit(e.ps, x - e.ls, e.pc);
      }
    }
  }

  lemma {:induction false} KeepRightOwned(list: seq<Ext>, x: nat)
    requires AllOk(list)
    ensures Owned(KeepRight(list, x)) <= Owned(list)
  {
    if list != [] {
      assert ExtOk(list[0]);
      KeepRightOwned(list[1..], x);
      TrimRightOwned(list[0], x);
      OwnedConcat(TrimRight(list[0], x), KeepRight(list[1..], x));
    }
  }

  /** What is still in the list of group g when its turn comes. */
  function Later(list: seq<Ext>, t: Touched, g: nat): seq<Ext> {
    if g <= t.first then list else KeepRight(list, g * GROUP)
  }

  /** Everything that rebuilding the touched groups has to read can be read. */
  ghost predicate AllReadable(dev: Device, c: Codec, list: seq<Ext>, t: Touched) {
    forall g | t.first <= g <= t.last :: GroupReadable(dev, c, Later(list, t, g), g * GROUP, GroupEnd(g, t.blocks))
  }

  /** The list as it stands is as readable, for the group whose turn it is, as what is left of the original one. */
  lemma {:induction false} StillReadable(dev: Device, dev': Device, c: Codec, list0: seq<Ext>, list: seq<Ext>,
                                         news: seq<Ext>, t: Touched, g: nat)
    requires AllOk(list0) && Sorted(list0) && InRewrite(list0, list, news, t, g) && g <= t.last
    requires SameOn(dev, dev', Owned(Later(list0, t, g)))
    ensures GroupReadable(dev', c, list, g * GROUP, GroupEnd(g, t.blocks))
      <==> GroupReadable(dev, c, Later(list0, t, g), g * GROUP, GroupEnd(g, t.blocks))
  {
    hide Owned, SameOn, KeepLeft, KeepRight, OverlapReadable;
    var gs, ge := g * GROUP, GroupEnd(g, t.blocks);
    ReadableFrame(dev, dev', c, Later(list0, t, g), gs, ge);
    if g != t.first {
      var from := t.first * GROUP;
      var l, r := KeepLeft(list0, from), KeepRight(list0, gs);
      KeepLeftSorted(list0, from);
      CoversBounds(news, from, gs);
      ReadableConcat(dev', c, l + news, r, gs, ge);
    }
  }
}
