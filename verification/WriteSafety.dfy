/** When a write into a gapless file keeps all its content: exactly when the compressed extents that the
    touched groups cut hold nothing that is still needed. */
module WriteSafety {
  import opened Blocks
  import opened Extents
  import opened Coalescing
  import opened Cuts
  import opened FileLayout
  import opened FileContent
  import opened FileAppends
  import opened FileWrites
  import opened GroupRewrites

  // ----- a stored list is gapless exactly when the list was

  lemma {:induction false} SumPush(acc: seq<Ext>, e: Ext)
    ensures LogicalSum(Push(acc, e)) == LogicalSum(acc) + e.lc
  {
    SumOne(e);
    if acc != [] && Mergeable(acc[|acc| - 1], e) {
      var a, p := acc[..|acc| - 1], acc[|acc| - 1];
      assert acc == a + [p];
      SumConcat(a, [p]);
      SumConcat(a, [Merge(p, e)]);
      SumOne(p);
      SumOne(Merge(p, e));
    } else {
      SumConcat(acc, [e]);
    }
  }

  lemma {:induction false} SumOne(e: Ext)
    ensures LogicalSum([e]) == e.lc
  {
    assert [e][1..] == [];
  }

  lemma {:induction false} SumCoalesce(list: seq<Ext>)
    ensures LogicalSum(Coalesce(list)) == LogicalSum(list)
  {
    if list != [] {
      var a, e := list[..|list| - 1], list[|list| - 1];
      assert list == a + [e];
      SumCoalesce(a);
      SumPush(Coalesce(a), e);
      SumConcat(a, [e]);
      SumOne(e);
    }
  }

  lemma {:induction false} SumAbut(list: seq<Ext>, base: nat)
    ensures LogicalSum(Abut(list, base)) == LogicalSum(list)
  {
    if list != [] {
      SumAbut(list[1..], base + list[0].lc);
      assert Abut(list, base)[1..] == Abut(list[1..], base + list[0].lc);
    }
  }

  lemma {:induction false} SumStored(f: File, list: seq<Ext>)
    requires AllOk(list) && Stores(f, list)
    ensures LogicalSum(Collect(f)) == LogicalSum(list)
  {
    var k := if |list| < INLINE then |list| else INLINE;
    StoredIsAbut(f, list, k);
    SumConcat(Abut(list[..k], 0), list[k..]);
    SumAbut(list[..k], 0);
    SumConcat(list[..k], list[k..]);
    assert list == list[..k] + list[k..];
  }

  /** A list in order holds at most the blocks between its bounds, and is gapless if it holds them all. */
  lemma {:induction false} SumBound(list: seq<Ext>, from: nat, n: nat)
    requires AllOk(list) && Sorted(list) && Within(list, n) && StartsAfter(list, from) && from <= n
    ensures from + LogicalSum(list) <= n
    ensures from + LogicalSum(list) == n ==> Covers(list, from, n)
  {
    if list != [] {
      SortedTail(list);
      SumBound(list[1..], End(list[0]), n);
    }
  }

  lemma {:induction false} GaplessBySum(list: seq<Ext>, n: nat)
    requires AllOk(list) && Sorted(list) && Within(list, n)
    ensures Covers(list, 0, n) <==> LogicalSum(list) == n
  {
    if Covers(list, 0, n) {
      SumOfCovers(list, 0, n);
    }
    SumBound(list, 0, n);
  }

  lemma {:induction false} StoredCovers(f: File, list: seq<Ext>, n: nat)
    requires AllOk(list) && Sorted(list) && Within(list, n) && Stores(f, Coalesce(list))
    ensures Covers(Collect(f), 0, n) <==> Covers(list, 0, n)
  {
    hide Covers, Stores, Collect, Coalesce, LogicalSum;
    StoredList(f, list, n);
    CoalesceCorrect(list, n);
    SumStored(f, Coalesce(list));
    SumCoalesce(list);
    GaplessBySum(list, n);
    GaplessBySum(Collect(f), n);
  }

  // ----- a file holds one content

  lemma {:induction false} SameSlice(dev: Device, c: Codec, e: Ext, a: seq<Block>, b: seq<Block>, bs: nat)
    requires bs > 0 && AllSized(a, bs) && AllSized(b, bs) && ExtShows(dev, c, e, a) && ExtShows(dev, c, e, b)
    ensures a[e.ls..End(e)] == b[e.ls..End(e)]
  {
    if !Plain(e) {
      SplitJoin(a[e.ls..End(e)], bs);
      SplitJoin(b[e.ls..End(e)], bs);
    }
  }

  lemma {:induction false} HoldsOne(dev: Device, c: Codec, bs: nat, f: File, a: seq<Block>, b: seq<Block>)
    requires bs > 0 && Holds(dev, c, bs, f, a) && Holds(dev, c, bs, f, b)
    ensures a == b
  {
    hide Collect, ExtShows, Covers;
    var list := Collect(f);
    forall i | 0 <= i < |a| ensures a[i] == b[i] {
      HasCovered(list, 0, |a|, i);
      var k :| 0 <= k < |list| && In(list[k], i);
      SameSlice(dev, c, list[k], a, b, bs);
      ShownAt(dev, c, list[k], a, i);
      ShownAt(dev, c, list[k], b, i);
    }
  }

  lemma {:induction false} ShownAt(dev: Device, c: Codec, e: Ext, a: seq<Block>, i: nat)
    requires ExtShows(dev, c, e, a) && In(e, i)
    ensures End(e) <= |a| && a[e.ls..End(e)][i - e.ls] == a[i]
  {
  }

  // ----- the condition of a write

  /** The write takes the append path; or the touched groups cut no compressed extent at their ends, and what
      a compressed extent cut between them held and the write does not replace was zero. */
  ghost predicate WriteSafe(f: File, content: seq<Block>, bs: nat, offset: nat, len: nat)
    requires bs > 0 && len > 0
  {
    var t := TouchedBy(bs, offset, len, f.size);
    PureAppend(f.size, offset, bs)
    || (CutsNothing(Collect(f), t) && DropsZeros(Collect(f), Extended(content, t.blocks, bs), t, bs, offset, len))
  }

  /** In a file whose compressed extents are whole groups every write is safe. */
  lemma {:induction false} AlignedIsSafe(f: File, content: seq<Block>, bs: nat, offset: nat, len: nat)
    requires bs > 0 && len > 0 && offset <= f.size && Aligned(Collect(f)) && AllSized(content, bs)
    requires |content| == CeilDiv(f.size, bs) && Covers(Collect(f), 0, |content|)
    ensures WriteSafe(f, content, bs, offset, len)
  {
    hide Collect, Covers, Aligned, Extended, ZeroFrom, Dropped;
    var t := TouchedBy(bs, offset, len, f.size);
    TouchedGroups(bs, offset, len, f.size);
    ExtendedProps(content, t.blocks, bs);
    AlignedCutsNothing(Collect(f), t, |content|);
    AlignedDropsNothing(Collect(f), Extended(content, t.blocks, bs), t, bs, offset, len, |content|);
  }

  // ----- the condition without the content

  /** No compressed extent cut at the start of the last group reaches past the written bytes. */
  ghost predicate NoneReachesPast(list: seq<Ext>, t: Touched, bs: nat, end: nat) {
    t.first < t.last ==> forall i | 0 <= i < |list| :: StaysWithin(list[i], t.last * GROUP, bs, end)
  }

  predicate StaysWithin(e: Ext, x: nat, bs: nat, end: nat) {
    !Plain(e) && e.ls < x < End(e) ==> End(e) * bs <= end
  }

  /** A dropped block of a group before the last is replaced entirely. */
  lemma {:induction false} MiddleReplaced(t: Touched, bs: nat, offset: nat, len: nat, size: nat, b: nat)
    requires bs > 0 && len > 0 && t == TouchedBy(bs, offset, len, size) && t.first < b / GROUP
    ensures offset <= b * bs
    ensures b / GROUP < t.last ==> b * bs + bs <= offset + len
  {
    var fb, lb := offset / bs, (offset + len - 1) / bs;
    DivBounds(offset, bs);
    DivBounds(offset + len - 1, bs);
    MulMonotone(fb + 1, b, bs);
    if b / GROUP < t.last {
      MulMonotone(b + 1, lb, bs);
      assert (b + 1) * bs == b * bs + bs;
    }
  }

  lemma {:induction false} DroppedReplaced(list: seq<Ext>, t: Touched, bs: nat, offset: nat, len: nat, size: nat,
                                           cov: nat, b: nat)
    requires bs > 0 && len > 0 && t == TouchedBy(bs, offset, len, size) && Covers(list, 0, cov)
    requires Dropped(list, t, b) && b < cov && NoneReachesPast(list, t, bs, offset + len)
    ensures offset <= b * bs && b * bs + bs <= offset + len
  {
    hide Has, KeepRight, Covers;
    MiddleReplaced(t, bs, offset, len, size, b);
    if b / GROUP == t.last {
      LostRight(list, cov, t.last * GROUP, b);
      var i :| 0 <= i < |list| && Across(list[i], t.last * GROUP, b);
      assert StaysWithin(list[i], t.last * GROUP, bs, offset + len);
      MulMonotone(b + 1, End(list[i]), bs);
      assert (b + 1) * bs == b * bs + bs;
    }
  }

  /** The contents a file of this shape can hold. */
  ghost predicate Possible(x: seq<Block>, n: nat, bs: nat, cov: nat) {
    |x| == n && AllSized(x, bs) && ZeroFrom(x, cov, bs)
  }

  /** A write is safe whatever the file holds exactly when no compressed extent cut at the start of the last
      group reaches past the written bytes. */
  lemma {:induction false} SafeWhateverHeld(list: seq<Ext>, t: Touched, bs: nat, offset: nat, len: nat, size: nat,
                                            cov: nat)
    requires bs > 0 && len > 0 && t == TouchedBy(bs, offset, len, size) && Covers(list, 0, cov) && cov <= t.blocks
    requires AllOk(list)
    ensures NoneReachesPast(list, t, bs, offset + len)
      <==> forall x | Possible(x, t.blocks, bs, cov) :: DropsZeros(list, x, t, bs, offset, len)
  {
    hide Dropped, Covers, RestZero;
    if NoneReachesPast(list, t, bs, offset + len) {
      forall x | Possible(x, t.blocks, bs, cov) ensures DropsZeros(list, x, t, bs, offset, len) {
        NothingLost(list, t, bs, offset, len, size, cov, x);
      }
    } else {
      var i :| 0 <= i < |list| && !StaysWithin(list[i], t.last * GROUP, bs, offset + len);
      var x := Losing(list, t, bs, offset, len, size, cov, i);
    }
  }

  lemma {:induction false} NothingLost(list: seq<Ext>, t: Touched, bs: nat, offset: nat, len: nat, size: nat, cov: nat,
                                       x: seq<Block>)
    requires bs > 0 && len > 0 && t == TouchedBy(bs, offset, len, size) && Covers(list, 0, cov)
    requires NoneReachesPast(list, t, bs, offset + len) && AllSized(x, bs) && ZeroFrom(x, cov, bs)
    ensures DropsZeros(list, x, t, bs, offset, len)
  {
    hide Dropped, Covers;
    forall b | 0 <= b < |x| && Dropped(list, t, b) ensures RestZero(x, b, bs, offset, len) {
      if b < cov {
        DroppedReplaced(list, t, bs, offset, len, size, cov, b);
      }
    }
  }

  /** A content that a write loses: all ones in the last block of an extent that reaches past the bytes written. */
  lemma {:induction false} Losing(list: seq<Ext>, t: Touched, bs: nat, offset: nat, len: nat, size: nat, cov: nat,
                                  i: nat)
    returns (x: seq<Block>)
    requires bs > 0 && len > 0 && t == TouchedBy(bs, offset, len, size) && Covers(list, 0, cov) && cov <= t.blocks
    requires AllOk(list)
    requires t.first < t.last && i < |list| && !StaysWithin(list[i], t.last * GROUP, bs, offset + len)
    ensures Possible(x, t.blocks, bs, cov) && !DropsZeros(list, x, t, bs, offset, len)
  {
    hide Covers, Has, KeepRight;
    var e := list[i];
    var b := End(e) - 1;
    CoversBounds(list, 0, cov);
    assert ExtOk(list[i]);
    assert t.last * GROUP <= b < (t.last + 1) * GROUP;
    assert Across(list[i], t.last * GROUP, b);
    LostRight(list, cov, t.last * GROUP, b);
    assert Dropped(list, t, b);
    x := OnesAt(t.blocks, b, bs);
    OnesLost(t.blocks, b, bs, offset, len, cov);
  }

  function OnesAt(n: nat, b: nat, bs: nat): seq<Block>
    requires b < n
  {
    seq(n, _ => Zeros(bs))[b := seq(bs, _ => 1)]
  }

  lemma {:induction false} OnesLost(n: nat, b: nat, bs: nat, offset: nat, len: nat, cov: nat)
    requires bs > 0 && b < cov <= n && offset + len < (b + 1) * bs
    ensures Possible(OnesAt(n, b, bs), n, bs, cov) && !RestZero(OnesAt(n, b, bs), b, bs, offset, len)
  {
    var x := OnesAt(n, b, bs);
    assert (b + 1) * bs == b * bs + bs;
    assert b * bs + (bs - 1) >= offset + len;
    assert x[b][bs - 1] == 1;
  }
}
