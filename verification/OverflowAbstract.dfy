/** The tree on disk as a value: insert-only trees are well formed, and clearing one on disk clears its value. */
module OverflowAbstract {
  import opened OverflowNodes
  import opened OverflowShape
  import opened OverflowOrder
  import opened OverflowInsert
  import OverflowScan
  import opened OverflowValues
  import opened OverflowRuns

  /** The tree below a node of height h. */
  function TreeAt(d: Disk, x: Lba, h: nat): Tree
    decreases h, 0
  {
    if h == 0 then Tip(RecsAt(d, x)) else Fork(KidsFor(d, EntriesAt(d, x), h - 1))
  }

  /** Entries with the trees below them, whose roots have height h. */
  function KidsFor(d: Disk, es: seq<Entry>, h: nat): (r: seq<Kid>)
    ensures |r| == |es|
    decreases h, 1
  {
    seq(|es|, i requires 0 <= i < |es| => Kid(es[i].key, TreeAt(d, es[i].child, h)))
  }

  lemma {:induction false} KidAt(d: Disk, es: seq<Entry>, h: nat, i: nat)
    requires i < |es|
    ensures KidsFor(d, es, h)[i] == Kid(es[i].key, TreeAt(d, es[i].child, h))
  {
  }

  lemma {:induction false} KidsConcat(d: Disk, a: seq<Entry>, b: seq<Entry>, h: nat)
    ensures KidsFor(d, a + b, h) == KidsFor(d, a, h) + KidsFor(d, b, h)
  {
  }

  lemma {:induction false} KidsSlice(d: Disk, es: seq<Entry>, i: nat, j: nat, h: nat)
    requires i <= j <= |es|
    ensures KidsFor(d, es[i..j], h) == KidsFor(d, es, h)[i..j]
  {
  }

  /** A part of a well-formed list is well formed. */
  lemma {:induction false} StrictSlice(kids: seq<Kid>, i: nat, j: nat)
    requires StrictAll(kids) && i < j <= |kids|
    ensures StrictAll(kids[i..j])
  {
    var left := kids[..j];
    if j < |kids| {
      assert kids == left + kids[j..];
      StrictConcat(left, kids[j..]);
    } else {
      assert left == kids;
    }
    if i > 0 {
      assert left == left[..i] + left[i..];
      StrictConcat(left[..i], left[i..]);
    }
    assert left[i..] == kids[i..j];
  }

  // ----- what lies below the first entries of a level

  ghost function Keys(es: seq<Entry>): set<Key> {
    set e | e in es :: e.key
  }

  lemma {:induction false} KeysNext(es: seq<Entry>, p: nat)
    requires 0 < p <= |es|
    ensures Keys(es[..p]) == Keys(es[..p - 1]) + {es[p - 1].key}
  {
    assert es[..p] == es[..p - 1] + [es[p - 1]];
  }

  lemma {:induction false} FirstKids(d: Disk, es: seq<Entry>, p: nat, h: nat)
    requires 0 < p <= |es|
    ensures var kids, last := KidsFor(d, es[..p], h), Kid(es[p - 1].key, TreeAt(d, es[p - 1].child, h));
      && RecordsAll(kids) == RecordsAll(KidsFor(d, es[..p - 1], h)) + Records(last.tree)
      && MarksAll(kids) == MarksAll(KidsFor(d, es[..p - 1], h)) + ({last.key} + Marks(last.tree))
  {
    hide TreeAt, KidsFor, RecordsAll, MarksAll;
    var a, b := es[..p - 1], [es[p - 1]];
    assert es[..p] == a + b;
    KidsConcat(d, a, b, h);
    AllOfConcat(KidsFor(d, a, h), KidsFor(d, b, h));
    var last := Kid(es[p - 1].key, TreeAt(d, es[p - 1].child, h));
    KidAt(d, b, h, 0);
    assert KidsFor(d, b, h) == [last];
    AllOfOne(last);
  }

  /** Above the leaves: the records below the first p entries are those of the first p leaves. */
  lemma {:induction false} LeavesBelow(d: Disk, es: seq<Entry>, l: seq<Lba>, p: nat)
    requires PointAt(es, l) && p <= |l|
    ensures RecordsAll(KidsFor(d, es[..p], 0)) == Recs(d, l[..p])
    ensures MarksAll(KidsFor(d, es[..p], 0)) == Keys(es[..p])
  {
    if p > 0 {
      hide RecordsAll, MarksAll, Recs, Keys, TreeAt, KidsFor, Records, Marks;
      LeavesBelow(d, es, l, p - 1);
      FirstKids(d, es, p, 0);
      RecsAround(d, l, p - 1);
      KeysNext(es, p);
      LeafTree(d, l[p - 1]);
    }
  }

  lemma {:induction false} LeafTree(d: Disk, x: Lba)
    ensures Records(TreeAt(d, x, 0)) == RecsAt(d, x) && Marks(TreeAt(d, x, 0)) == {}
  {
  }

  lemma {:induction false} NodeTree(d: Disk, x: Lba, h: nat)
    ensures Records(TreeAt(d, x, h + 1)) == RecordsAll(KidsFor(d, EntriesAt(d, x), h))
    ensures Marks(TreeAt(d, x, h + 1)) == MarksAll(KidsFor(d, EntriesAt(d, x), h))
  {
  }

  /** Higher up: what lies below the first p entries lies below the entries of the first p nodes. */
  lemma {:induction false} NodesBelow(d: Disk, es: seq<Entry>, l: seq<Lba>, h: nat, p: nat)
    requires PointAt(es, l) && p <= |l|
    ensures RecordsAll(KidsFor(d, es[..p], h + 1)) == RecordsAll(KidsFor(d, Entries(d, l[..p]), h))
    ensures MarksAll(KidsFor(d, es[..p], h + 1)) == Keys(es[..p]) + MarksAll(KidsFor(d, Entries(d, l[..p]), h))
  {
    if p == 0 {
      assert es[..0] == [] && l[..0] == [];
    } else {
      hide RecordsAll, MarksAll, Entries, Keys, TreeAt, KidsFor, Records, Marks;
      NodesBelow(d, es, l, h, p - 1);
      FirstKids(d, es, p, h + 1);
      KeysNext(es, p);
      NodeTree(d, l[p - 1], h);
      NextNode(d, l, h, p);
      var last := TreeAt(d, l[p - 1], h + 1);
      assert es[p - 1].child == l[p - 1];
      Regroup(Keys(es[..p - 1]), MarksAll(KidsFor(d, Entries(d, l[..p - 1]), h)), es[p - 1].key, Marks(last));
    }
  }

  lemma {:induction false} Regroup<T>(a: set<T>, b: set<T>, k: T, c: set<T>)
    ensures (a + b) + ({k} + c) == (a + {k}) + (b + c)
  {
  }

  lemma {:induction false} NextNode(d: Disk, l: seq<Lba>, h: nat, p: nat)
    requires 0 < p <= |l|
    ensures var a, b := KidsFor(d, Entries(d, l[..p - 1]), h), KidsFor(d, EntriesAt(d, l[p - 1]), h);
      && RecordsAll(KidsFor(d, Entries(d, l[..p]), h)) == RecordsAll(a) + RecordsAll(b)
      && MarksAll(KidsFor(d, Entries(d, l[..p]), h)) == MarksAll(a) + MarksAll(b)
  {
    hide RecordsAll, MarksAll, Entries, TreeAt, KidsFor;
    EntriesAround(d, l, p - 1);
    KidsConcat(d, Entries(d, l[..p - 1]), EntriesAt(d, l[p - 1]), h);
    AllOfConcat(KidsFor(d, Entries(d, l[..p - 1]), h), KidsFor(d, EntriesAt(d, l[p - 1]), h));
  }

  lemma {:induction false} Cancel<T>(a: seq<T>, b: seq<T>, a': seq<T>, b': seq<T>)
    requires a + b == a' + b' && a == a'
    ensures b == b'
  {
    assert (a + b)[|a|..] == b && (a' + b')[|a'|..] == b';
  }

  /** The part of a list from j on. */
  lemma {:induction false} RestOf(d: Disk, es: seq<Entry>, j: nat, h: nat)
    requires j <= |es|
    ensures RecordsAll(KidsFor(d, es, h)) == RecordsAll(KidsFor(d, es[..j], h)) + RecordsAll(KidsFor(d, es[j..], h))
  {
    hide RecordsAll, TreeAt, KidsFor;
    assert es == es[..j] + es[j..];
    KidsConcat(d, es[..j], es[j..], h);
    AllOfConcat(KidsFor(d, es[..j], h), KidsFor(d, es[j..], h));
  }

  // ----- insert-only trees are well formed

  /** A key that separates the flat view below a list of entries from the rest. */
  ghost predicate Divides(d: Disk, a: seq<Entry>, b: seq<Entry>, h: nat, k: Key) {
    LeftOf(KidsFor(d, a, h), k) && RightOf(KidsFor(d, b, h), k)
  }

  /** At height 1 the separators divide the leaf chain. */
  lemma {:induction false} DividesLeaves(d: Disk, es: seq<Entry>, l: seq<Lba>, j: nat)
    requires PointAt(es, l) && SortedEntries(es) && 1 <= j < |l| && SortedRecs(Recs(d, l))
    requires |RecsAt(d, l[j])| > 0 && RecsAt(d, l[j])[0].key == es[j].key
    ensures Divides(d, es[..j], es[j..], 0, es[j].key)
  {
    hide TreeAt, KidsFor, RecordsAll, Recs, MarksAll, AllBelow, NoneBelow;
    LeavesBelow(d, es, l, j);
    LeavesBelow(d, es, l, |l|);
    assert es[..|l|] == es && l[..|l|] == l;
    RestOf(d, es, j, 0);
    RecsFromLeaf(d, l, j);
    SortedAround(Recs(d, l[..j]), Recs(d, l[j..]));
    Cancel(RecordsAll(KidsFor(d, es[..j], 0)), RecordsAll(KidsFor(d, es[j..], 0)), Recs(d, l[..j]), Recs(d, l[j..]));
    KeysBelow(es, j);
  }

  lemma {:induction false} KeysBelow(es: seq<Entry>, j: nat)
    requires SortedEntries(es) && j < |es|
    ensures forall m | m in Keys(es[..j]) :: Lt(m, es[j].key)
  {
    forall m | m in Keys(es[..j]) ensures Lt(m, es[j].key) {
      var e :| e in es[..j] && e.key == m;
      var i :| 0 <= i < j && es[i] == e;
    }
  }

  /** Higher up a separator divides what it divides one level down. */
  lemma {:induction false} DividesNodes(d: Disk, es: seq<Entry>, l: seq<Lba>, h: nat, j: nat)
    requires PointAt(es, l) && SortedEntries(es) && 1 <= j < |l|
    requires Divides(d, Entries(d, l[..j]), Entries(d, l[j..]), h, es[j].key)
    ensures Divides(d, es[..j], es[j..], h + 1, es[j].key)
  {
    hide TreeAt, KidsFor, RecordsAll, Entries, MarksAll, AllBelow, NoneBelow;
    NodesBelow(d, es, l, h, j);
    NodesBelow(d, es, l, h, |l|);
    assert es[..|l|] == es && l[..|l|] == l && l == l[..j] + l[j..];
    RestOf(d, es, j, h + 1);
    EntriesConcat(d, l[..j], l[j..]);
    var a, b := Entries(d, l[..j]), Entries(d, l[j..]);
    KidsConcat(d, a, b, h);
    AllOfConcat(KidsFor(d, a, h), KidsFor(d, b, h));
    Cancel(RecordsAll(KidsFor(d, es[..j], h + 1)), RecordsAll(KidsFor(d, es[j..], h + 1)),
           RecordsAll(KidsFor(d, a, h)), RecordsAll(KidsFor(d, b, h)));
    KeysBelow(es, j);
  }

  /** The whole level, as one list, is well formed. */
  lemma {:induction false} LevelStrict(d: Disk, levels: seq<seq<Lba>>, root: Lba, c: Caps, h: nat)
    requires Exact(d, levels, root, c) && 1 <= h < |levels|
    ensures StrictAll(KidsFor(d, Entries(d, levels[h]), h - 1))
    decreases h, 1
  {
    var es := Entries(d, levels[h]);
    var kids := KidsFor(d, es, h - 1);
    LevelSorted(d, levels, root, c, h);
    LevelFilled(d, levels, root, c, h - 1);
    hide Exact, TreeAt, KidsFor, Strict, Divides, Entries, SplitsAt;
    forall i | 0 <= i < |kids| ensures StrictKid(kids[i]) {
      NodeStrict(d, levels, root, c, h - 1, i);
      KidAt(d, es, h - 1, i);
    }
    forall j | 1 <= j < |kids| ensures SplitsAt(kids, j) {
      LevelDivides(d, levels, root, c, h, j);
      SplitsIn(d, es, j, h - 1);
    }
  }

  lemma {:induction false} LevelFilled(d: Disk, levels: seq<seq<Lba>>, root: Lba, c: Caps, h: nat)
    requires Exact(d, levels, root, c) && h < |levels|
    ensures |levels[h]| > 0
  {
    assert LevelAt(d, levels, h, c);
  }

  lemma {:induction false} SplitsIn(d: Disk, es: seq<Entry>, j: nat, h: nat)
    requires j < |es| && Divides(d, es[..j], es[j..], h, es[j].key)
    ensures SplitsAt(KidsFor(d, es, h), j)
  {
    hide TreeAt, KidsFor, LeftOf, RightOf;
    var kids := KidsFor(d, es, h);
    KidsSlice(d, es, 0, j, h);
    KidsSlice(d, es, j, |es|, h);
    assert es[0..j] == es[..j] && es[j..|es|] == es[j..];
    assert kids[0..j] == kids[..j] && kids[j..|es|] == kids[j..];
    KidAt(d, es, h, j);
  }

  lemma {:induction false} LevelDivides(d: Disk, levels: seq<seq<Lba>>, root: Lba, c: Caps, h: nat, j: nat)
    requires Exact(d, levels, root, c) && 1 <= h < |levels| && 1 <= j < |Entries(d, levels[h])|
    ensures Divides(d, Entries(d, levels[h])[..j], Entries(d, levels[h])[j..], h - 1, Entries(d, levels[h])[j].key)
    decreases h, 0
  {
    if h == 1 {
      BottomDivides(d, levels, root, c, j);
    } else {
      hide TreeAt, KidsFor, Divides, Entries;
      FirstBelow(d, levels, root, c, h - 1, j);
      LevelDivides(d, levels, root, c, h - 1, Start(d, levels[h - 1], j));
      LevelSorted(d, levels, root, c, h);
      UpperDivides(d, Entries(d, levels[h]), levels[h - 1], h - 2, j);
    }
  }

  lemma {:induction false} LevelSorted(d: Disk, levels: seq<seq<Lba>>, root: Lba, c: Caps, h: nat)
    requires Exact(d, levels, root, c) && 1 <= h < |levels|
    ensures PointAt(Entries(d, levels[h]), levels[h - 1]) && SortedEntries(Entries(d, levels[h]))
  {
    assert KidsAt(d, levels, h);
  }

  lemma {:induction false} BottomDivides(d: Disk, levels: seq<seq<Lba>>, root: Lba, c: Caps, j: nat)
    requires Exact(d, levels, root, c) && 1 < |levels| && 1 <= j < |Entries(d, levels[1])|
    ensures Divides(d, Entries(d, levels[1])[..j], Entries(d, levels[1])[j..], 0, Entries(d, levels[1])[j].key)
  {
    var es, l := Entries(d, levels[1]), levels[0];
    LevelSorted(d, levels, root, c, 1);
    assert ExactAt(d, levels, 1) && LevelAt(d, levels, 0, c);
    assert NodeOk(d[l[j]], 0, c);
    hide TreeAt, KidsFor, Divides, Entries, Recs, LevelAt, ExactAt;
    DividesLeaves(d, es, l, j);
  }

  /** What the first entry of node j divides one level down, the entry that points at node j divides. */
  lemma {:induction false} UpperDivides(d: Disk, es: seq<Entry>, l: seq<Lba>, h: nat, j: nat)
    requires PointAt(es, l) && SortedEntries(es) && 1 <= j < |l| && Start(d, l, j) < |Entries(d, l)|
    requires var i := Start(d, l, j);
      Entries(d, l)[i].key == es[j].key && Divides(d, Entries(d, l)[..i], Entries(d, l)[i..], h, es[j].key)
    ensures Divides(d, es[..j], es[j..], h + 1, es[j].key)
  {
    hide TreeAt, KidsFor, Divides, Entries;
    assert l == l[..j] + l[j..];
    EntriesConcat(d, l[..j], l[j..]);
    var lower, i := Entries(d, l), Start(d, l, j);
    assert lower[..i] == Entries(d, l[..j]) && lower[i..] == Entries(d, l[j..]);
    DividesNodes(d, es, l, h, j);
  }

  /** The first entry of node j of a level, in an insert-only tree. */
  lemma {:induction false} FirstBelow(d: Disk, levels: seq<seq<Lba>>, root: Lba, c: Caps, h: nat, j: nat)
    requires Exact(d, levels, root, c) && 1 <= h && h + 1 < |levels| && 1 <= j < |Entries(d, levels[h + 1])|
    ensures j < |levels[h]|
    ensures var i := Start(d, levels[h], j);
      && 1 <= i < |Entries(d, levels[h])|
      && Entries(d, levels[h])[i].key == Entries(d, levels[h + 1])[j].key
  {
    assert KidsAt(d, levels, h + 1) && ExactAt(d, levels, h + 1);
    IndexLevel(d, levels, root, c, h, j);
    StartsGrow(d, levels, root, c, h, j, j + 1);
    EntryAt(d, levels[h], j, 0);
  }

  lemma {:induction false} NodeStrict(d: Disk, levels: seq<seq<Lba>>, root: Lba, c: Caps, h: nat, p: nat)
    requires Exact(d, levels, root, c) && h < |levels| && p < |levels[h]|
    ensures Strict(TreeAt(d, levels[h][p], h))
    decreases h, 2
  {
    var l := levels[h];
    if h == 0 {
      assert SortedRecs(Recs(d, levels[0]));
      LeafStrict(d, l, p);
    } else {
      LevelStrict(d, levels, root, c, h);
      IndexLevel(d, levels, root, c, h, p);
      PartStrict(d, l, p, h - 1);
    }
  }

  lemma {:induction false} LeafStrict(d: Disk, l: seq<Lba>, p: nat)
    requires SortedRecs(Recs(d, l)) && p < |l|
    ensures Strict(TreeAt(d, l[p], 0))
  {
    RecsAround(d, l, p);
    hide Recs;
    MiddleOf(Recs(d, l[..p]), RecsAt(d, l[p]), Recs(d, l[p + 1..]));
  }

  lemma {:induction false} PartStrict(d: Disk, l: seq<Lba>, p: nat, h: nat)
    requires StrictAll(KidsFor(d, Entries(d, l), h)) && p < |l| && |EntriesAt(d, l[p])| > 0
    ensures Strict(TreeAt(d, l[p], h + 1))
  {
    assert TreeAt(d, l[p], h + 1) == Fork(KidsFor(d, EntriesAt(d, l[p]), h));
    hide TreeAt, KidsFor, StrictAll, Entries;
    EntriesAround(d, l, p);
    var i, es := |Entries(d, l[..p])|, Entries(d, l);
    var j := i + |EntriesAt(d, l[p])|;
    assert es[i..j] == EntriesAt(d, l[p]);
    KidsSlice(d, es, i, j, h);
    StrictSlice(KidsFor(d, es, h), i, j);
  }

  lemma {:induction false} MiddleOf(x: seq<Extent>, recs: seq<Extent>, y: seq<Extent>)
    requires SortedRecs(x + recs + y)
    ensures SortedRecs(recs)
  {
    forall i, j | 0 <= i < j < |recs| ensures Lt(recs[i].key, recs[j].key) {
      assert recs[i] == (x + recs + y)[|x| + i] && recs[j] == (x + recs + y)[|x| + j];
    }
  }

  /** The value of an insert-only tree on disk is well formed. */
  lemma {:induction false} ExactIsStrict(d: Disk, levels: seq<seq<Lba>>, root: Lba, c: Caps)
    requires Exact(d, levels, root, c)
    ensures Strict(TreeAt(d, root, |levels| - 1))
  {
    NodeStrict(d, levels, root, c, |levels| - 1, 0);
  }

  // ----- records and clears

  lemma {:induction false} LevelPoints(d: Disk, levels: seq<seq<Lba>>, root: Lba, c: Caps, h: nat)
    requires Bare(d, levels, root, c) && 1 <= h < |levels|
    ensures PointAt(Entries(d, levels[h]), levels[h - 1])
  {
    assert LinkAt(d, levels, h);
  }

  lemma {:induction false} LevelRecords(d: Disk, levels: seq<seq<Lba>>, root: Lba, c: Caps, h: nat)
    requires Bare(d, levels, root, c) && 1 <= h < |levels|
    ensures RecordsAll(KidsFor(d, Entries(d, levels[h]), h - 1)) == Recs(d, levels[0])
  {
    hide Bare, Entries, Recs, TreeAt, KidsFor, RecordsAll;
    LevelPoints(d, levels, root, c, h);
    var es, l := Entries(d, levels[h]), levels[h - 1];
    assert es[..|l|] == es && l[..|l|] == l;
    if h == 1 {
      LeavesBelow(d, es, l, |l|);
    } else {
      LevelRecords(d, levels, root, c, h - 1);
      NodesBelow(d, es, l, h - 2, |l|);
    }
  }

  lemma {:induction false} OneNode(d: Disk, x: Lba)
    ensures Entries(d, [x]) == EntriesAt(d, x) && Recs(d, [x]) == RecsAt(d, x)
  {
    assert [x][1..] == [];
  }

  /** The value of a tree on disk holds the records of its leaf chain. */
  lemma {:induction false} SameRecords(d: Disk, levels: seq<seq<Lba>>, root: Lba, c: Caps)
    requires Bare(d, levels, root, c)
    ensures Records(TreeAt(d, root, |levels| - 1)) == Recs(d, levels[0])
  {
    var h := |levels| - 1;
    assert levels[h] == [root];
    OneNode(d, root);
    if h == 0 {
      LeafTree(d, root);
    } else {
      LevelRecords(d, levels, root, c, h);
      NodeTree(d, root, h - 1);
      hide Bare, Entries, Recs, TreeAt, KidsFor, RecordsAll, Records;
    }
  }

  lemma {:induction false} ClearedKids(d0: Disk, d: Disk, leaves: seq<Lba>, es: seq<Entry>, h: nat, ino: nat)
    requires OverflowScan.ClearedIn(d0, d, leaves, ino) && forall x | x in d0 && d0[x].Leaf? :: x in leaves
    ensures KidsFor(d, es, h) == ClearAll(KidsFor(d0, es, h), ino)
    decreases h, |es|
  {
    if es != [] {
      var n := |es| - 1;
      var a, last := es[..n], es[n];
      ClearedKids(d0, d, leaves, a, h, ino);
      ClearedTree(d0, d, leaves, last.child, h, ino);
      assert es == a + [last];
      KidsConcat(d, a, [last], h);
      KidsConcat(d0, a, [last], h);
      KidAt(d, [last], h, 0);
      KidAt(d0, [last], h, 0);
      ClearNext(KidsFor(d0, a, h), Kid(last.key, TreeAt(d0, last.child, h)), ino);
      hide TreeAt, KidsFor, ClearAll;
      assert KidsFor(d, [last], h) == [Kid(last.key, TreeAt(d, last.child, h))];
      assert KidsFor(d0, [last], h) == [Kid(last.key, TreeAt(d0, last.child, h))];
    }
  }

  lemma {:induction false} ClearNext(kids: seq<Kid>, k: Kid, ino: nat)
    ensures ClearAll(kids + [k], ino) == ClearAll(kids, ino) + [Kid(k.key, Clear(k.tree, ino))]
  {
    assert (kids + [k])[..|kids|] == kids;
  }

  /** Clearing the tree on disk clears its value. */
  lemma {:induction false} ClearedTree(d0: Disk, d: Disk, leaves: seq<Lba>, x: Lba, h: nat, ino: nat)
    requires OverflowScan.ClearedIn(d0, d, leaves, ino) && forall y | y in d0 && d0[y].Leaf? :: y in leaves
    ensures TreeAt(d, x, h) == Clear(TreeAt(d0, x, h), ino)
    decreases h, 0
  {
    if h > 0 {
      ClearedKids(d0, d, leaves, EntriesAt(d0, x), h - 1, ino);
    }
  }

  lemma {:induction false} ClearedValue(d0: Disk, d: Disk, levels: seq<seq<Lba>>, root: Lba, c: Caps, ino: nat)
    requires Bare(d0, levels, root, c) && OverflowScan.ClearedIn(d0, d, levels[0], ino)
    ensures TreeAt(d, root, |levels| - 1) == Clear(TreeAt(d0, root, |levels| - 1), ino)
  {
    ClearedTree(d0, d, levels[0], root, |levels| - 1, ino);
  }

  /** A well-formed tree cleared of any one inode is well formed: from here on, whether inserts keep refining the map
      is a matter of the keys they hand up. */
  lemma {:induction false} ClearedIsStrict(d0: Disk, d: Disk, levels: seq<seq<Lba>>, root: Lba, c: Caps, ino: nat)
    requires Bare(d0, levels, root, c) && Strict(TreeAt(d0, root, |levels| - 1))
    requires OverflowScan.ClearedIn(d0, d, levels[0], ino)
    ensures var t := TreeAt(d, root, |levels| - 1);
      Strict(t) && t == Clear(TreeAt(d0, root, |levels| - 1), ino)
  {
    ClearedTree(d0, d, levels[0], root, |levels| - 1, ino);
    ClearStrict(TreeAt(d0, root, |levels| - 1), ino);
  }
}
