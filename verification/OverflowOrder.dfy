/** Exact separators are subtree minima, and they are bounds. */
module OverflowOrder {
  import opened OverflowNodes
  import opened OverflowShape

  lemma {:induction false} LeftLeafGrows(d: Disk, levels: seq<seq<Lba>>, root: Lba, c: Caps, h: nat, p: nat, q: nat)
    requires Shape(d, levels, root, c) && h < |levels| && p < q <= |levels[h]|
    ensures LeftLeaf(d, levels, h, p) < LeftLeaf(d, levels, h, q) <= |levels[0]|
    ensures p > 0 ==> LeftLeaf(d, levels, h, p) > 0
    ensures q == |levels[h]| ==> LeftLeaf(d, levels, h, q) == |levels[0]|
    ensures p == 0 ==> LeftLeaf(d, levels, h, p) == 0
    decreases h
  {
    if h > 0 {
      var l := levels[h];
      StartsGrow(d, levels, root, c, h, p, q);
      assert KidsAt(d, levels, h);
      LeftLeafGrows(d, levels, root, c, h - 1, Start(d, l, p), Start(d, l, q));
    }
  }

  lemma {:induction false} StartsGrow(d: Disk, levels: seq<seq<Lba>>, root: Lba, c: Caps, h: nat, p: nat, q: nat)
    requires Shape(d, levels, root, c) && 1 <= h < |levels| && p < q <= |levels[h]|
    ensures Start(d, levels[h], p) < Start(d, levels[h], q) <= |levels[h - 1]|
    ensures p <= Start(d, levels[h], p)
    ensures p == 0 ==> Start(d, levels[h], p) == 0
    ensures q == |levels[h]| ==> Start(d, levels[h], q) == |levels[h - 1]|
  {
    var l := levels[h];
    assert KidsAt(d, levels, h);
    forall i | 0 <= i < |l| ensures |EntriesAt(d, l[i])| > 0 {
      IndexLevel(d, levels, root, c, h, i);
    }
    StartGrows(d, l, p);
    StartNext(d, l, q - 1);
    if p < q - 1 {
      StartsGrow(d, levels, root, c, h, p, q - 1);
    }
  }

  /** One step down: a node's slot-0 key is the slot-0 key of its first child. */
  lemma {:induction false} FirstKeyOfFirstChild(d: Disk, levels: seq<seq<Lba>>, root: Lba, c: Caps, h: nat, p: nat)
    requires Exact(d, levels, root, c) && 1 <= h < |levels| && 1 <= p < |levels[h]|
    ensures levels[h][p] in d && Size(d[levels[h][p]]) > 0
    ensures var s := Start(d, levels[h], p);
      1 <= s < |levels[h - 1]| && levels[h - 1][s] in d && Size(d[levels[h - 1][s]]) > 0
      && FirstKey(d[levels[h][p]]) == FirstKey(d[levels[h - 1][s]])
  {
    var l := levels[h];
    IndexLevel(d, levels, root, c, h, p);
    StartsGrow(d, levels, root, c, h, p, p + 1);
    EntryAt(d, l, p, 0);
    assert LevelAt(d, levels, h - 1, c);
    assert ExactAt(d, levels, h);
  }

  /** In an insert-only tree the slot-0 key of every node but the first of its level is the first
      key of the leftmost leaf below it. */
  lemma {:induction false} FirstKeyOfLeftLeaf(d: Disk, levels: seq<seq<Lba>>, root: Lba, c: Caps, h: nat, p: nat)
    requires Exact(d, levels, root, c) && h < |levels| && 1 <= p < |levels[h]|
    ensures 1 <= LeftLeaf(d, levels, h, p) < |levels[0]|
    ensures var n, f := levels[h][p], levels[0][LeftLeaf(d, levels, h, p)];
      n in d && Size(d[n]) > 0 && f in d && Size(d[f]) > 0 && d[f].Leaf? && FirstKey(d[n]) == FirstKey(d[f])
    decreases h
  {
    if h == 0 {
      assert LevelAt(d, levels, h, c);
      assert NodeOk(d[levels[h][p]], h, c);
    } else {
      FirstKeyOfFirstChild(d, levels, root, c, h, p);
      FirstKeyOfLeftLeaf(d, levels, root, c, h - 1, Start(d, levels[h], p));
    }
  }

  /** The records from leaf n on start with leaf n's slot 0. */
  lemma {:induction false} RecsFromLeaf(d: Disk, l: seq<Lba>, n: nat)
    requires n < |l| && |RecsAt(d, l[n])| > 0
    ensures Recs(d, l) == Recs(d, l[..n]) + Recs(d, l[n..])
    ensures |Recs(d, l[n..])| > 0 && Recs(d, l[n..])[0] == RecsAt(d, l[n])[0]
  {
    assert l == l[..n] + l[n..];
    RecsConcat(d, l[..n], l[n..]);
    assert l[n..][0] == l[n];
  }

  /** The separator in slot j >= 1 of a level is the first key of the leftmost leaf below its child. */
  lemma {:induction false} SeparatorOfLeaf(d: Disk, levels: seq<seq<Lba>>, root: Lba, c: Caps, h: nat, j: nat)
    requires Exact(d, levels, root, c) && 1 <= h < |levels| && 1 <= j < |Entries(d, levels[h])|
    ensures j < |levels[h - 1]|
    ensures var n := LeftLeaf(d, levels, h - 1, j);
      1 <= n < |levels[0]| && |RecsAt(d, levels[0][n])| > 0
      && RecsAt(d, levels[0][n])[0].key == Entries(d, levels[h])[j].key
  {
    assert KidsAt(d, levels, h);
    assert LevelAt(d, levels, h - 1, c);
    assert ExactAt(d, levels, h);
    FirstKeyOfLeftLeaf(d, levels, root, c, h - 1, j);
  }

  lemma {:induction false} ExactSeparates(d: Disk, levels: seq<seq<Lba>>, root: Lba, c: Caps, h: nat, j: nat)
    requires Exact(d, levels, root, c) && 1 <= h < |levels| && 1 <= j < |Entries(d, levels[h])|
    ensures Separates(d, levels, h, j)
  {
    SeparatorOfLeaf(d, levels, root, c, h, j);
    var n := LeftLeaf(d, levels, h - 1, j);
    RecsFromLeaf(d, levels[0], n);
    SortedAround(Recs(d, levels[0][..n]), Recs(d, levels[0][n..]));
  }

  lemma {:induction false} SortedAround(a: seq<Extent>, b: seq<Extent>)
    requires SortedRecs(a + b) && |b| > 0
    ensures AllBelow(a, b[0].key) && NoneBelow(b, b[0].key) && SortedRecs(a) && SortedRecs(b)
    ensures forall i | 1 <= i < |b| :: Lt(b[0].key, b[i].key)
  {
    var s := a + b;
    assert b[0] == s[|a|];
    forall i | 0 <= i < |a| ensures Lt(a[i].key, b[0].key) {
      assert a[i] == s[i];
    }
    forall i, j | 0 <= i < j < |a| ensures Lt(a[i].key, a[j].key) {
      assert a[i] == s[i] && a[j] == s[j];
    }
    forall i, j | 0 <= i < j < |b| ensures Lt(b[i].key, b[j].key) {
      assert b[i] == s[|a| + i] && b[j] == s[|a| + j];
    }
  }

  /** Insert-only trees are ordered: their exact separators are bounds. */
  lemma {:induction false} ExactIsOrdered(d: Disk, levels: seq<seq<Lba>>, root: Lba, c: Caps)
    requires Exact(d, levels, root, c)
    ensures Ordered(d, levels, root, c)
  {
    forall h, j | 1 <= h < |levels| && 1 <= j < |Entries(d, levels[h])| ensures Separates(d, levels, h, j) {
      ExactSeparates(d, levels, root, c, h, j);
    }
  }

  /** The records stored below node p of height h. */
  function Below(d: Disk, levels: seq<seq<Lba>>, h: nat, p: nat): seq<Extent>
    requires h < |levels|
  {
    var n, m := LeftLeaf(d, levels, h, p), LeftLeaf(d, levels, h, p + 1);
    if n <= m <= |levels[0]| then Recs(d, levels[0][n..m]) else []
  }

  /** In an insert-only tree the separator in every slot but the very first of its level is the
      minimum of the records below its child. */
  lemma {:induction false} SeparatorIsSubtreeMinimum(d: Disk, levels: seq<seq<Lba>>, root: Lba, c: Caps, h: nat, j: nat)
    requires Exact(d, levels, root, c) && 1 <= h < |levels| && 1 <= j < |Entries(d, levels[h])|
    ensures var below := Below(d, levels, h - 1, j);
      var k := Entries(d, levels[h])[j].key;
      |below| > 0 && below[0].key == k && forall i | 1 <= i < |below| :: Lt(k, below[i].key)
  {
    SeparatorOfLeaf(d, levels, root, c, h, j);
    LeftLeafGrows(d, levels, root, c, h - 1, j, j + 1);
    LeafRangeMinimum(d, levels[0], LeftLeaf(d, levels, h - 1, j), LeftLeaf(d, levels, h - 1, j + 1));
  }

  lemma {:induction false} LeafRangeMinimum(d: Disk, l: seq<Lba>, n: nat, m: nat)
    requires n < m <= |l| && |RecsAt(d, l[n])| > 0 && SortedRecs(Recs(d, l))
    ensures var s := Recs(d, l[n..m]);
      |s| > 0 && s[0] == RecsAt(d, l[n])[0] && forall i | 1 <= i < |s| :: Lt(s[0].key, s[i].key)
  {
    RecsFromLeaf(d, l, n);
    assert l[n..] == l[n..m] + l[m..];
    RecsConcat(d, l[n..m], l[m..]);
    assert l[n..m][0] == l[n];
    var s, b := Recs(d, l[n..m]), Recs(d, l[n..]);
    SortedAround(Recs(d, l[..n]), b);
    forall i | 1 <= i < |s| ensures Lt(s[0].key, s[i].key) {
      assert s[i] == b[i] && s[0] == b[0];
    }
  }
}
