/** Value-level facts about truncating an extent list. */
module FileTruncate {
  import opened Blocks
  import opened Extents
  import opened Coalescing
  import opened FileLayout
  import opened FileContent
  import opened FileWrites
  import opened FileRead

  /** The first k blocks of an extent: the whole extent, an uncompressed part of it, or nothing. */
  ghost predicate TruncatedTo(e: Ext, piece: seq<Ext>, k: nat) {
    && |piece| == (if k == 0 then 0 else 1)
    && (k > 0 ==> piece[0].ls == e.ls && piece[0].lc == k <= e.lc && ExtOk(piece[0]))
    && (k > 0 ==> Plain(piece[0]) || piece[0] == e)
    && (k > 0 && Plain(e) ==> piece[0].ps == e.ps) && (k > 0 && k == e.lc ==> piece[0] == e)
  }

  /** The list cut off after n logical blocks, counted without regard to gaps. */
  function Truncated(list: seq<Ext>, n: nat): seq<Ext> {
    if list == [] || n == 0 then []
    else if list[0].lc <= n then [list[0]] + Truncated(list[1..], n - list[0].lc)
    else [list[0].(lc := n, pc := n)]
  }

  /** The cut after n blocks falls between extents or into an uncompressed one. */
  predicate BoundaryPlain(list: seq<Ext>, n: nat) {
    list == [] || n == 0
    || if list[0].lc <= n then BoundaryPlain(list[1..], n - list[0].lc) else Plain(list[0])
  }

  /** The extents of a file after its truncation to n blocks. */
  function AfterTruncation(list: seq<Ext>, n: nat): seq<Ext> {
    if LogicalSum(list) <= n then list else PackedList(Coalesce(Truncated(list, n)))
  }

  lemma {:induction false} SumWithin(list: seq<Ext>, n: nat, base: nat)
    requires AllOk(list) && Sorted(list) && Within(list, n) && base <= n && (list != [] ==> base <= list[0].ls)
    ensures LogicalSum(list) <= n - base
  {
    if list != [] {
      var e, rest := list[0], list[1..];
      assert ExtOk(e) && End(e) <= n;
      assert forall i {:trigger rest[i]} | 0 <= i < |rest| :: rest[i] == list[i + 1];
      SumWithin(rest, n, End(e));
    }
  }

  /** Nothing is truncated when all extents lie within the blocks to keep. */
  lemma {:induction false} NothingTruncated(list: seq<Ext>, n: nat)
    requires AllOk(list) && Sorted(list) && Within(list, n)
    ensures AfterTruncation(list, n) == list
  {
    SumWithin(list, n, 0);
  }

  /** The cut after n blocks falls into compressed extent i. */
  ghost predicate CutAt(list: seq<Ext>, n: nat, i: nat) {
    i < |list| && !Plain(list[i]) && LogicalSum(list[..i]) < n < LogicalSum(list[..i]) + list[i].lc
  }

  /** The compressed extent that is cut has no gap before it but does not unpack. */
  ghost predicate CutFails(dev: Device, c: Codec, list: seq<Ext>, n: nat, i: nat) {
    CutAt(list, n, i) && LogicalSum(list[..i]) == list[i].ls && !Unpacks(dev, c, list[i])
  }

  /** A compressed extent that is cut has no gap before it. */
  ghost predicate CutClear(list: seq<Ext>, n: nat) {
    forall i | 0 <= i < |list| && CutAt(list, n, i) :: LogicalSum(list[..i]) == list[i].ls
  }

  /** The kept list: the extents before the cut, and of the extent that is cut its first blocks: the same
      physical ones, or others when it is compressed. */
  ghost predicate KeptTo(list: seq<Ext>, n: nat, kept: seq<Ext>) {
    exists k :: 0 <= k <= |list| && KeptAt(list, n, kept, k)
  }

  ghost predicate KeptAt(list: seq<Ext>, n: nat, kept: seq<Ext>, k: nat)
    requires k <= |list|
  {
    var sum := LogicalSum(list[..k]);
    if sum == n || (sum < n && k == |list|) then kept == list[..k]
    else
      && sum < n < sum + list[k].lc && |kept| == k + 1 && kept[..k] == list[..k]
      && Plain(kept[k]) && kept[k].ls == list[k].ls && kept[k].lc == n - sum
      && (Plain(list[k]) ==> kept[k].ps == list[k].ps)
  }

  lemma {:induction false} SumStep(list: seq<Ext>, i: nat)
    requires i < |list|
    ensures LogicalSum(list[..i + 1]) == LogicalSum(list[..i]) + list[i].lc
  {
    assert list[..i + 1] == list[..i] + [list[i]];
    SumConcat(list[..i], [list[i]]);
  }

  lemma {:induction false} SumGrows(list: seq<Ext>, i: nat, j: nat)
    requires i <= j <= |list|
    ensures LogicalSum(list[..i]) <= LogicalSum(list[..j])
  {
    assert list[..j] == list[..i] + list[i..j];
    SumConcat(list[..i], list[i..j]);
  }

  lemma {:induction false} CutOnce(list: seq<Ext>, n: nat, i: nat, j: nat)
    requires CutAt(list, n, i) && CutAt(list, n, j)
    ensures i == j
  {
    if i < j {
      SumStep(list, i);
      SumGrows(list, i + 1, j);
    } else if j < i {
      SumStep(list, j);
      SumGrows(list, j + 1, i);
    }
  }

  /** Without gaps there is none before the extent that is cut. */
  lemma {:induction false} GaplessCutClear(list: seq<Ext>, n: nat, total: nat)
    requires Covers(list, 0, total)
    ensures CutClear(list, n)
  {
    forall i | 0 <= i < |list| && CutAt(list, n, i) ensures LogicalSum(list[..i]) == list[i].ls {
      CoversAt(list, 0, total, i);
      SumOfCovers(list[..i], 0, list[i].ls);
    }
  }

  /** What is kept before extent i. */
  ghost predicate KeptSoFar(list: seq<Ext>, i: nat, kept: seq<Ext>, pos: nat, n: nat) {
    && i <= |list| && pos == (if LogicalSum(list[..i]) < n then LogicalSum(list[..i]) else n)
    && if pos < n then kept == list[..i] else KeptTo(list, n, kept)
  }

  lemma {:induction false} KeptStart(list: seq<Ext>, n: nat)
    ensures KeptSoFar(list, 0, [], 0, n)
  {
    assert list[..0] == [];
    assert n == 0 ==> KeptAt(list, n, [], 0);
  }

  lemma {:induction false} KeptStep(list: seq<Ext>, i: nat, kept: seq<Ext>, piece: seq<Ext>, pos: nat, pos': nat,
                                    n: nat)
    requires i < |list| && ExtOk(list[i]) && KeptSoFar(list, i, kept, pos, n)
    requires pos' == (if pos + list[i].lc <= n then pos + list[i].lc else n) && TruncatedTo(list[i], piece, pos' - pos)
    requires pos' > pos && pos' < pos + list[i].lc ==> Plain(piece[0])
    ensures KeptSoFar(list, i + 1, kept + piece, pos', n)
  {
    SumStep(list, i);
    if pos == n {
      assert kept + piece == kept;
    } else if pos + list[i].lc <= n {
      assert piece == [list[i]];
      assert list[..i + 1] == list[..i] + [list[i]];
      if pos' == n {
        assert KeptAt(list, n, kept + piece, i + 1);
      }
    } else {
      assert (kept + piece)[..i] == kept;
      assert KeptAt(list, n, kept + piece, i);
    }
  }

  lemma {:induction false} KeptEnd(list: seq<Ext>, kept: seq<Ext>, pos: nat, n: nat)
    requires KeptSoFar(list, |list|, kept, pos, n)
    ensures KeptTo(list, n, kept)
  {
    if pos < n {
      assert KeptAt(list, n, kept, |list|);
    }
  }

  /** A list of no more than n blocks is kept whole. */
  lemma {:induction false} CutNothing(list: seq<Ext>, n: nat)
    requires LogicalSum(list) <= n
    ensures KeptTo(list, n, list) && forall i: nat :: !CutAt(list, n, i)
  {
    assert list[..|list|] == list;
    assert KeptAt(list, n, list, |list|);
    forall i: nat ensures !CutAt(list, n, i) {
      if i < |list| {
        SumStep(list, i);
        SumGrows(list, i + 1, |list|);
      }
    }
  }

  lemma {:induction false} CutNowhereElse(dev: Device, c: Codec, list: seq<Ext>, n: nat, i: nat)
    requires CutAt(list, n, i)
    ensures (exists j: nat :: CutFails(dev, c, list, n, j)) <==> CutFails(dev, c, list, n, i)
  {
    hide CutAt, Unpacks;
    if j: nat :| CutFails(dev, c, list, n, j) {
      CutOnce(list, n, i, j);
    }
  }

  lemma {:induction false} NoneFails(dev: Device, c: Codec, list: seq<Ext>, n: nat)
    requires forall i | 0 <= i < |list| :: !CutFails(dev, c, list, n, i)
    ensures !exists i: nat :: CutFails(dev, c, list, n, i)
  {
    hide Unpacks;
  }

  lemma {:induction false} FailsClear(dev: Device, c: Codec, list: seq<Ext>, n: nat, i: nat)
    requires CutFails(dev, c, list, n, i)
    ensures CutClear(list, n)
  {
    hide Unpacks;
    forall j | 0 <= j < |list| && CutAt(list, n, j) ensures LogicalSum(list[..j]) == list[j].ls {
      CutOnce(list, n, i, j);
    }
  }

  /** Extent i is cut, or it is not. */
  lemma {:induction false} CutHere(list: seq<Ext>, i: nat, kept: seq<Ext>, pos: nat, n: nat)
    requires i < |list| && KeptSoFar(list, i, kept, pos, n)
    ensures CutAt(list, n, i) <==> !Plain(list[i]) && pos < n < pos + list[i].lc
    ensures pos < n ==> pos == LogicalSum(list[..i])
  {
  }

  /** What is kept so far, with what the rest will give, is the truncated list. */
  ghost predicate TruncatingTo(list: seq<Ext>, i: nat, kept: seq<Ext>, pos: nat, n: nat) {
    i <= |list| && pos <= n && BoundaryPlain(list[i..], n - pos)
      && kept + Truncated(list[i..], n - pos) == Truncated(list, n)
  }

  lemma {:induction false} TruncateToStart(list: seq<Ext>, n: nat)
    ensures BoundaryPlain(list, n) ==> TruncatingTo(list, 0, [], 0, n)
  {
    assert list[0..] == list;
  }

  lemma {:induction false} TruncateToStep(list: seq<Ext>, i: nat, kept: seq<Ext>, piece: seq<Ext>, pos: nat, pos': nat,
                                          n: nat)
    requires i < |list| && ExtOk(list[i]) && TruncatingTo(list, i, kept, pos, n)
    requires pos' == (if pos + list[i].lc <= n then pos + list[i].lc else n) && TruncatedTo(list[i], piece, pos' - pos)
    ensures TruncatingTo(list, i + 1, kept + piece, pos', n)
  {
    var rest := list[i..];
    assert rest[0] == list[i] && rest[1..] == list[i + 1..];
    if pos == n {
      assert piece == [];
    } else {
      assert piece == [piece[0]];
      Assoc(kept, piece, Truncated(list[i + 1..], n - pos'));
    }
  }

  lemma {:induction false} TruncateToEnd(list: seq<Ext>, kept: seq<Ext>, pos: nat, n: nat)
    ensures TruncatingTo(list, |list|, kept, pos, n) ==> kept == Truncated(list, n)
  {
    assert list[|list|..] == [];
  }

  lemma {:induction false} StoredPacked(f: File, list: seq<Ext>)
    requires AllOk(list) && Stores(f, list)
    ensures Collect(f) == PackedList(list)
  {
    StoredIsAbut(f, list, if |list| < INLINE then |list| else INLINE);
  }

  lemma {:induction false} SplitOwned(e: Ext, keep: nat, m: multiset<Lba>)
    requires Plain(e) && keep <= e.lc
    ensures m + multiset(Range(e.ps, e.pc))
      == (m + Owned([e.(lc := keep, pc := keep)])) + multiset(Range(e.ps + keep, e.pc - keep))
  {
    OwnedOne(e.(lc := keep, pc := keep));
    RangeSplit(e.ps, keep, e.pc);
    hide Owned, Range;
  }

  /** Before extent i: the kept extents are in order, and whatever precedes extent i ends before it. */
  ghost predicate Truncating(list: seq<Ext>, i: nat, kept: seq<Ext>, pos: nat, n: nat, total: nat) {
    && i <= |list| && pos <= n && AllOk(kept) && Sorted(kept) && Within(kept, total)
    && (i < |list| ==> Within(kept, list[i].ls) && (pos < n ==> pos <= list[i].ls))
    && (Aligned(list) ==> Aligned(kept))
  }

  /** In a gapless list the kept extents cover what they provide, and extent i starts there. */
  ghost predicate TruncatingCovers(list: seq<Ext>, i: nat, kept: seq<Ext>, pos: nat, n: nat, total: nat) {
    && i <= |list| && Covers(kept, 0, pos) && (pos < n ==> if i < |list| then pos == list[i].ls else pos == total)
  }

  ghost predicate TruncatingShows(dev: Device, c: Codec, list: seq<Ext>, i: nat, kept: seq<Ext>, content: seq<Block>) {
    i <= |list| && Shows(dev, c, kept, content) && Shows(dev, c, list[i..], content)
  }

  lemma {:induction false} TruncateStart(list: seq<Ext>, n: nat, total: nat, m: multiset<Lba>, dev: Device, c: Codec,
                                         content: seq<Block>)
    requires AllOk(list) && Sorted(list) && Within(list, total)
    ensures Truncating(list, 0, [], 0, n, total) && (m + Owned([])) + Owned(list[0..]) == m + Owned(list)
    ensures Covers(list, 0, total) ==> TruncatingCovers(list, 0, [], 0, n, total)
    ensures Shows(dev, c, list, content) ==> TruncatingShows(dev, c, list, 0, [], content)
  {
    assert list[0..] == list;
    assert m + Owned([]) == m;
  }

  lemma {:induction false} TruncateNext(list: seq<Ext>, i: nat, kept: seq<Ext>, pos: nat, n: nat, total: nat,
                                        dev: Device, c: Codec, content: seq<Block>)
    requires i < |list| && AllOk(list) && Truncating(list, i, kept, pos, n, total)
    ensures ExtOk(list[i]) && (pos < n ==> pos <= list[i].ls)
    ensures TruncatingCovers(list, i, kept, pos, n, total) && pos < n ==> pos == list[i].ls
    ensures TruncatingShows(dev, c, list, i, kept, content) ==> ExtShows(dev, c, list[i], content)
  {
    assert list[i..][0] == list[i];
  }

  lemma {:induction false} TruncateOwned(m: multiset<Lba>, kept: seq<Ext>, piece: seq<Ext>, rest: seq<Ext>)
    ensures ((m + Owned(kept)) + Owned(rest)) + Owned(piece) == (m + Owned(kept + piece)) + Owned(rest)
  {
    OwnedConcat(kept, piece);
    hide Owned;
  }

  lemma {:induction false} TruncateFrame(dev: Device, dev': Device, m: multiset<Lba>, kept: seq<Ext>, rest: seq<Ext>)
    requires SameOn(dev, dev', (m + Owned(kept)) + Owned(rest))
    ensures SameOn(dev, dev', m) && SameOn(dev, dev', Owned(kept)) && SameOn(dev, dev', Owned(rest))
  {
    hide Owned, SameOn;
    SameOnParts(dev, dev', m + Owned(kept), Owned(rest));
    SameOnParts(dev, dev', m, Owned(kept));
  }

  lemma {:induction false} TruncateStep(list: seq<Ext>, i: nat, kept: seq<Ext>, piece: seq<Ext>, pos: nat, pos': nat,
                                        n: nat, total: nat)
    requires i < |list| && AllOk(list) && Sorted(list) && Within(list, total)
    requires Truncating(list, i, kept, pos, n, total)
    requires pos' == (if pos + list[i].lc <= n then pos + list[i].lc else n) && TruncatedTo(list[i], piece, pos' - pos)
    ensures Truncating(list, i + 1, kept + piece, pos', n, total)
  {
    assert ExtOk(list[i]) && End(list[i]) <= total;
    ConcatSorted(kept, piece);
    assert i + 1 < |list| ==> End(list[i]) <= list[i + 1].ls;
    if Aligned(list) {
      assert Plain(list[i]) || (list[i].ls % GROUP == 0 && list[i].lc == GROUP);
      AlignedConcat(kept, piece);
    }
  }

  lemma {:induction false} TruncateShowsStep(dev: Device, dev': Device, c: Codec, list: seq<Ext>, i: nat,
                                             kept: seq<Ext>, piece: seq<Ext>,
                                             content: seq<Block>)
    requires i < |list| && TruncatingShows(dev, c, list, i, kept, content)
    requires Shows(dev', c, piece, content) && SameOn(dev, dev', Owned(kept)) && SameOn(dev, dev', Owned(list[i + 1..]))
    ensures TruncatingShows(dev', c, list, i + 1, kept + piece, content)
  {
    hide SameOn, Owned, ExtShows;
    assert list[i..] == [list[i]] + list[i + 1..];
    ShowsConcat(dev, c, [list[i]], list[i + 1..], content);
    ShowsFrame(dev, dev', c, list[i + 1..], content);
    ShowsFrame(dev, dev', c, kept, content);
    ShowsConcat(dev', c, kept, piece, content);
  }

  lemma {:induction false} TruncateCoversStep(list: seq<Ext>, i: nat, kept: seq<Ext>, piece: seq<Ext>, pos: nat,
                                              pos': nat, n: nat, total: nat)
    requires i < |list| && AllOk(list) && Covers(list, 0, total) && pos <= n
    requires TruncatingCovers(list, i, kept, pos, n, total)
    requires pos' == (if pos + list[i].lc <= n then pos + list[i].lc else n) && TruncatedTo(list[i], piece, pos' - pos)
    ensures TruncatingCovers(list, i + 1, kept + piece, pos', n, total)
  {
    PieceCovers(list, i, kept, piece, pos, pos', n, total);
  }

  lemma {:induction false} PieceCovers(list: seq<Ext>, i: nat, kept: seq<Ext>, piece: seq<Ext>, pos: nat, pos': nat,
                                       n: nat, total: nat)
    requires i < |list| && AllOk(list) && Covers(list, 0, total) && Covers(kept, 0, pos) && pos <= n
    requires (pos < n ==> pos == list[i].ls)
    requires pos' == (if pos + list[i].lc <= n then pos + list[i].lc else n) && TruncatedTo(list[i], piece, pos' - pos)
    ensures Covers(kept + piece, 0, pos')
    ensures pos' < n ==> if i + 1 < |list| then pos' == list[i + 1].ls else pos' == total
  {
    if pos' > pos {
      assert Covers(piece, pos, pos') by { assert piece[1..] == []; }
      CoversConcat(kept, piece, 0, pos, pos');
    } else {
      assert kept + piece == kept;
    }
    if pos' < n {
      assert ExtOk(list[i]);
      CoversAt(list, 0, total, i);
      if i + 1 < |list| {
        CoversAt(list, 0, total, i + 1);
        CoversEnd(list[..i + 1], 0, End(list[i]), list[i + 1].ls);
      } else {
        assert list[..i + 1] == list;
        CoversEnd(list, 0, End(list[i]), total);
      }
    }
  }

  lemma {:induction false} TruncateEnd(list: seq<Ext>, kept: seq<Ext>, pos: nat, n: nat, total: nat, m: multiset<Lba>,
                                       dev: Device, c: Codec, content: seq<Block>)
    requires pos <= n && Truncating(list, |list|, kept, pos, n, total)
    ensures AllOk(kept) && Sorted(kept) && Within(kept, total)
    ensures (m + Owned(kept)) + Owned(list[|list|..]) == m + Owned(kept)
    ensures Aligned(list) ==> Aligned(kept)
    ensures TruncatingCovers(list, |list|, kept, pos, n, total) && n <= total ==> Covers(kept, 0, n)
    ensures TruncatingShows(dev, c, list, |list|, kept, content) ==> Shows(dev, c, kept, content)
  {
    assert list[|list|..] == [];
  }

  /** A truncated list, stored: the part kept of the content. */
  lemma {:induction false} StoredTruncated(dev: Device, c: Codec, f: File, kept: seq<Ext>, n: nat, content: seq<Block>)
    requires AllOk(kept) && Covers(kept, 0, n) && Shows(dev, c, kept, content) && n <= |content|
    requires Stores(f, Coalesce(kept))
    ensures Covers(Collect(f), 0, n) && Shows(dev, c, Collect(f), content[..n])
  {
    hide ExtShows, Stores, Collect, Coalesce;
    StoreRoundTrip(f, kept, n);
    CoalesceShows(dev, c, kept, content);
    CoveredPrefix(dev, c, Collect(f), n, content);
  }

  lemma {:induction false} CoveredPrefix(dev: Device, c: Codec, list: seq<Ext>, n: nat, content: seq<Block>)
    requires Covers(list, 0, n) && Shows(dev, c, list, content) && n <= |content|
    ensures Shows(dev, c, list, content[..n])
  {
    hide ExtShows;
    CoversBounds(list, 0, n);
    forall i | 0 <= i < |list|
      ensures End(list[i]) <= |content[..n]|
      ensures content[..n][list[i].ls..End(list[i])] == content[list[i].ls..End(list[i])]
    {
      PrefixSlice(content, n, list[i].ls, End(list[i]));
    }
    ShowsPrefix(dev, c, list, content, content[..n]);
  }

  lemma {:induction false} PrefixSlice(content: seq<Block>, n: nat, a: nat, b: nat)
    requires a <= b <= n <= |content|
    ensures content[..n][a..b] == content[a..b]
  {
  }

  lemma {:induction false} StoredAligned(f: File, kept: seq<Ext>, n: nat)
    requires AllOk(kept) && Covers(kept, 0, n) && Stores(f, Coalesce(kept))
    ensures Covers(Collect(f), 0, n) && (Aligned(kept) ==> Aligned(Collect(f)))
  {
    StoreRoundTrip(f, kept, n);
    if Aligned(kept) {
      CoalesceAligned(kept);
    }
  }
}
