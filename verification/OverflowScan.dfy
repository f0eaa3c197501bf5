/** Scanning the leaf chain from the leftmost leaf that may hold an inode, and clearing an inode. */
module OverflowScan {
  import opened OverflowNodes
  import opened OverflowShape
  import opened OverflowOrder
  import opened OverflowSearch
  import opened OverflowInsert

  // ----- reaching the first leaf

  ghost predicate InosBelow(s: seq<Extent>, ino: nat) {
    forall i | 0 <= i < |s| :: s[i].key.ino < ino
  }

  ghost predicate InosAbove(s: seq<Extent>, ino: nat) {
    forall i | 0 <= i < |s| :: s[i].key.ino > ino
  }

  /** The leaf level can be walked: it is chained, and its records are in order. */
  ghost predicate Walkable(d: Disk, levels: seq<seq<Lba>>, c: Caps) {
    |levels| >= 1 && LevelAt(d, levels, 0, c) && SortedRecs(Recs(d, levels[0]))
  }

  // ----- filters

  /** The records of an inode, in order. */
  function OfInode(s: seq<Extent>, ino: nat): seq<Extent> {
    if s == [] then []
    else OfInode(s[..|s| - 1], ino) + if s[|s| - 1].key.ino == ino then [s[|s| - 1]] else []
  }

  /** The records of all other inodes, in order. */
  function Without(s: seq<Extent>, ino: nat): seq<Extent> {
    if s == [] then []
    else Without(s[..|s| - 1], ino) + if s[|s| - 1].key.ino == ino then [] else [s[|s| - 1]]
  }

  lemma {:induction false} OfInodeConcat(a: seq<Extent>, b: seq<Extent>, ino: nat)
    ensures OfInode(a + b, ino) == OfInode(a, ino) + OfInode(b, ino)
  {
    if b == [] {
      assert a + b == a;
    } else {
      assert (a + b)[..|a + b| - 1] == a + b[..|b| - 1];
      OfInodeConcat(a, b[..|b| - 1], ino);
    }
  }

  lemma {:induction false} WithoutConcat(a: seq<Extent>, b: seq<Extent>, ino: nat)
    ensures Without(a + b, ino) == Without(a, ino) + Without(b, ino)
  {
    if b == [] {
      assert a + b == a;
    } else {
      assert (a + b)[..|a + b| - 1] == a + b[..|b| - 1];
      WithoutConcat(a, b[..|b| - 1], ino);
    }
  }

  lemma {:induction false} OfNone(s: seq<Extent>, ino: nat)
    requires forall i | 0 <= i < |s| :: s[i].key.ino != ino
    ensures OfInode(s, ino) == [] && Without(s, ino) == s
  {
    if s != [] {
      var t := s[..|s| - 1];
      assert s == t + [s[|s| - 1]];
      OfNone(t, ino);
    }
  }

  /** Without keeps exactly the other records and their relative order. */
  lemma {:induction false} WithoutSorted(s: seq<Extent>, ino: nat)
    requires SortedRecs(s)
    ensures SortedRecs(Without(s, ino)) && |Without(s, ino)| <= |s|
    ensures forall r :: r in Without(s, ino) <==> r in s && r.key.ino != ino
  {
    if s != [] {
      var t := s[..|s| - 1];
      assert forall i | 0 <= i < |t| :: t[i] == s[i];
      assert s == t + [s[|s| - 1]];
      WithoutSorted(t, ino);
      var w := Without(t, ino);
      forall i | 0 <= i < |w| ensures Lt(w[i].key, s[|s| - 1].key) {
        assert w[i] in t;
      }
    }
  }

  /** The map without the records of an inode. */
  ghost function OtherInodes(m: map<Key, Extent>, ino: nat): map<Key, Extent> {
    map k | k in m && k.ino != ino :: m[k]
  }

  lemma {:induction false} WithoutMap(s: seq<Extent>, ino: nat)
    requires SortedRecs(s)
    ensures SortedRecs(Without(s, ino))
    ensures AsMap(Without(s, ino)) == OtherInodes(AsMap(s), ino)
  {
    WithoutSorted(s, ino);
  }

  // ----- the order of a chain scan

  /** Once a record of a larger inode is seen, nothing further belongs to the inode. */
  lemma {:induction false} PastTheInode(x: seq<Extent>, recs: seq<Extent>, y: seq<Extent>, i: nat, ino: nat)
    requires SortedRecs(x + recs + y) && i < |recs| && recs[i].key.ino > ino
    ensures InosAbove(recs[i..] + y, ino)
  {
    var s := x + recs + y;
    var t := recs[i..] + y;
    forall j | 0 <= j < |t| ensures t[j].key.ino > ino {
      assert t[j] == s[|x| + i + j] && recs[i] == s[|x| + i];
    }
  }

  lemma {:induction false} NothingOnTheLeft(s: seq<Extent>, ino: nat)
    requires InosBelow(s, ino)
    ensures OfInode(s, ino) == []
  {
    OfNone(s, ino);
  }

  /** What collecting one leaf adds; after a larger inode nothing more is missing. */
  lemma {:induction false} CollectedLeaf(x: seq<Extent>, recs: seq<Extent>, y: seq<Extent>, i: nat, past: bool,
                                         ino: nat)
    requires SortedRecs(x + recs + y) && i <= |recs|
    requires if past then i < |recs| && recs[i].key.ino > ino else i == |recs|
    ensures OfInode(x, ino) + OfInode(recs[..i], ino)
      == if past then OfInode(x + recs + y, ino) else OfInode(x + recs, ino)
  {
    OfInodeConcat(x, recs[..i], ino);
    if past {
      PastTheInode(x, recs, y, i, ino);
      OfNone(recs[i..] + y, ino);
      OfInodeConcat(x + recs[..i], recs[i..] + y, ino);
      assert x + recs + y == (x + recs[..i]) + (recs[i..] + y);
    } else {
      assert recs[..i] == recs;
    }
  }

  /** Leaf q of the chain, and the step to its right neighbour. */
  lemma {:induction false} LeafOnChain(d: Disk, levels: seq<seq<Lba>>, c: Caps, q: nat)
    requires Walkable(d, levels, c) && q < |levels[0]|
    ensures levels[0][q] in d && levels[0][q] != 0 && d[levels[0][q]].Leaf?
    ensures d[levels[0][q]].right == Neighbour(levels[0], q + 1)
    ensures SortedRecs(Recs(d, levels[0])) && levels[0][q] !in levels[0][..q]
    ensures Recs(d, levels[0]) == Recs(d, levels[0][..q]) + d[levels[0][q]].recs + Recs(d, levels[0][q + 1..])
    ensures Recs(d, levels[0][..q + 1]) == Recs(d, levels[0][..q]) + d[levels[0][q]].recs
  {
    assert LevelAt(d, levels, 0, c);
    assert LinkedAt(d, levels[0], q);
    assert NodeOk(d[levels[0][q]], 0, c);
    RecsAround(d, levels[0], q);
  }

  /** The leaf at place q of the chain. */
  lemma {:induction false} ChainNode(d: Disk, levels: seq<seq<Lba>>, c: Caps, q: nat)
    requires Walkable(d, levels, c) && q < |levels[0]|
    ensures levels[0][q] in d && d[levels[0][q]].Leaf? && d[levels[0][q]].right == Neighbour(levels[0], q + 1)
  {
    LeafOnChain(d, levels, c, q);
  }

  /** Collecting from the leaf at place q of the chain, of which the first i records were looked at. */
  lemma {:induction false} CollectStep(d: Disk, levels: seq<seq<Lba>>, c: Caps, q: nat, i: nat, past: bool,
                                       ino: nat)
    requires Walkable(d, levels, c) && q < |levels[0]| && levels[0][q] in d && d[levels[0][q]].Leaf?
    requires i <= |d[levels[0][q]].recs|
    requires var recs := d[levels[0][q]].recs; if past then i < |recs| && recs[i].key.ino > ino else i == |recs|
    ensures OfInode(Recs(d, levels[0][..q]), ino) + OfInode(d[levels[0][q]].recs[..i], ino)
      == OfInode(Recs(d, if past then levels[0] else levels[0][..q + 1]), ino)
  {
    LeafOnChain(d, levels, c, q);
    hide Recs, OfInode, SortedRecs;
    CollectedLeaf(Recs(d, levels[0][..q]), d[levels[0][q]].recs, Recs(d, levels[0][q + 1..]), i, past, ino);
  }

  // ----- clearing an inode

  /** d is d0 with the inode's records removed from the leaves in `done`. */
  ghost predicate ClearedIn(d0: Disk, d: Disk, done: seq<Lba>, ino: nat) {
    && d.Keys == d0.Keys
    && (forall x | x in d0 ::
          d[x] == if x in done && d0[x].Leaf? then d0[x].(recs := Without(d0[x].recs, ino)) else d0[x])
  }

  lemma {:induction false} ClearedRecs(d0: Disk, d: Disk, done: seq<Lba>, l: seq<Lba>, ino: nat)
    requires ClearedIn(d0, d, done, ino) && forall x | x in l :: x in done
    ensures Recs(d, l) == Without(Recs(d0, l), ino)
  {
    if l != [] {
      ClearedRecs(d0, d, done, l[1..], ino);
      assert l[0] in done;
      WithoutConcat(RecsAt(d0, l[0]), Recs(d0, l[1..]), ino);
    }
  }

  lemma {:induction false} ClearedEntries(d0: Disk, d: Disk, done: seq<Lba>, l: seq<Lba>, ino: nat)
    requires ClearedIn(d0, d, done, ino)
    ensures Entries(d, l) == Entries(d0, l)
  {
    forall x | x in l ensures EntriesAt(d0, x) == EntriesAt(d, x) {
    }
    EntriesFrame(d0, d, l);
  }

  lemma {:induction false} ClearedLeftLeaf(d0: Disk, d: Disk, done: seq<Lba>, levels: seq<seq<Lba>>, h: nat, p: nat,
                                           ino: nat)
    requires ClearedIn(d0, d, done, ino) && h < |levels|
    ensures LeftLeaf(d, levels, h, p) == LeftLeaf(d0, levels, h, p)
    decreases h
  {
    if h > 0 && p <= |levels[h]| {
      ClearedEntries(d0, d, done, levels[h][..p], ino);
      ClearedLeftLeaf(d0, d, done, levels, h - 1, Start(d0, levels[h], p), ino);
    }
  }

  lemma {:induction false} WithoutBounds(s: seq<Extent>, ino: nat, k: Key)
    ensures AllBelow(s, k) ==> AllBelow(Without(s, ino), k)
    ensures NoneBelow(s, k) ==> NoneBelow(Without(s, ino), k)
  {
    if s != [] {
      var t := s[..|s| - 1];
      assert forall i | 0 <= i < |t| :: t[i] == s[i];
      WithoutBounds(t, ino, k);
    }
  }

  lemma {:induction false} ClearedSeparates(d0: Disk, d: Disk, levels: seq<seq<Lba>>, ino: nat, h: nat, j: nat)
    requires |levels| >= 1 && ClearedIn(d0, d, levels[0], ino)
    requires 1 <= h < |levels| && j < |Entries(d0, levels[h])| && Separates(d0, levels, h, j)
    ensures j < |Entries(d, levels[h])| && Separates(d, levels, h, j)
  {
    hide Entries, Recs, LeftLeaf, ClearedIn, Without;
    ClearedEntries(d0, d, levels[0], levels[h], ino);
    ClearedLeftLeaf(d0, d, levels[0], levels, h - 1, j, ino);
    var n := LeftLeaf(d0, levels, h - 1, j);
    ClearedRecs(d0, d, levels[0], levels[0][..n], ino);
    ClearedRecs(d0, d, levels[0], levels[0][n..], ino);
    var k := Entries(d0, levels[h])[j].key;
    WithoutBounds(Recs(d0, levels[0][..n]), ino, k);
    WithoutBounds(Recs(d0, levels[0][n..]), ino, k);
  }

  lemma {:induction false} ClearedLevel(d0: Disk, d: Disk, done: seq<Lba>, h: nat, l: seq<Lba>, c: Caps, ino: nat)
    requires LevelOk(d0, h, l, c) && ClearedIn(d0, d, done, ino)
    ensures LevelOk(d, h, l, c)
  {
    forall i | 0 <= i < |l| ensures NodeOk(d[l[i]], h, c) && LinkedAt(d, l, i) {
      assert NodeOk(d0[l[i]], h, c) && LinkedAt(d0, l, i);
      if d0[l[i]].Leaf? {
        WithoutLength(d0[l[i]].recs, ino);
      }
    }
  }

  lemma {:induction false} WithoutLength(s: seq<Extent>, ino: nat)
    ensures |Without(s, ino)| <= |s|
  {
    if s != [] {
      WithoutLength(s[..|s| - 1], ino);
    }
  }

  /** Removing an inode's records leaves separators, chain, depths and the other records in place. */
  lemma {:induction false} ClearedIsOrdered(d0: Disk, d: Disk, levels: seq<seq<Lba>>, root: Lba, c: Caps, ino: nat)
    requires Ordered(d0, levels, root, c) && ClearedIn(d0, d, levels[0], ino)
    ensures Ordered(d, levels, root, c)
    ensures Recs(d, levels[0]) == Without(Recs(d0, levels[0]), ino)
  {
    hide ClearedIn;
    ClearedRecs(d0, d, levels[0], levels[0], ino);
    WithoutSorted(Recs(d0, levels[0]), ino);
    forall h | 0 <= h < |levels| ensures LevelAt(d, levels, h, c) {
      assert LevelAt(d0, levels, h, c);
      ClearedLevel(d0, d, levels[0], h, levels[h], c, ino);
    }
    forall h | 1 <= h < |levels| ensures KidsAt(d, levels, h) {
      assert KidsAt(d0, levels, h);
      ClearedEntries(d0, d, levels[0], levels[h], ino);
    }
    forall h, j | 1 <= h < |levels| && 1 <= j < |Entries(d, levels[h])| ensures Separates(d, levels, h, j) {
      ClearedEntries(d0, d, levels[0], levels[h], ino);
      assert Separates(d0, levels, h, j);
      ClearedSeparates(d0, d, levels, ino, h, j);
    }
    ClearedPlaced(d0, d, levels, ino);
  }

  lemma {:induction false} ClearedPlaced(d0: Disk, d: Disk, levels: seq<seq<Lba>>, ino: nat)
    requires |levels| >= 1 && ClearedIn(d0, d, levels[0], ino)
    requires forall x | x in d0 :: Level(d0[x]) < |levels| && x in levels[Level(d0[x])]
    ensures forall x | x in d :: Level(d[x]) < |levels| && x in levels[Level(d[x])]
  {
  }

  // ----- lookups

  /** The record maps block `block` of the inode. */
  predicate CoversBlock(r: Extent, ino: nat, block: nat) {
    r.key.ino == ino && r.key.off <= block < r.key.off + r.logical
  }

  ghost predicate NoneCovers(s: seq<Extent>, ino: nat, block: nat) {
    forall i | 0 <= i < |s| :: !CoversBlock(s[i], ino, block)
  }

  lemma {:induction false} FirstCover(x: seq<Extent>, recs: seq<Extent>, y: seq<Extent>, i: nat, ino: nat, block: nat)
    requires NoneCovers(x, ino, block) && i < |recs| && NoneCovers(recs[..i], ino, block)
    requires CoversBlock(recs[i], ino, block)
    ensures var s := x + recs + y;
      s[|x| + i] == recs[i] && forall j | 0 <= j < |x| + i :: !CoversBlock(s[j], ino, block)
  {
    var s := x + recs + y;
    forall j | 0 <= j < |x| + i ensures !CoversBlock(s[j], ino, block) {
      assert s[j] == if j < |x| then x[j] else recs[..i][j - |x|];
    }
  }

  lemma {:induction false} NoneCoversAll(x: seq<Extent>, recs: seq<Extent>, y: seq<Extent>, i: nat, ino: nat,
                                         block: nat)
    requires NoneCovers(x, ino, block) && i <= |recs| && NoneCovers(recs[..i], ino, block)
    requires InosAbove(recs[i..] + y, ino)
    ensures NoneCovers(x + recs + y, ino, block)
  {
    var s := x + recs + y;
    forall j | 0 <= j < |s| ensures !CoversBlock(s[j], ino, block) {
      if j < |x| {
      } else if j < |x| + i {
        assert s[j] == recs[..i][j - |x|];
      } else {
        assert s[j] == (recs[i..] + y)[j - |x| - i];
      }
    }
  }

  lemma {:induction false} AllOnDisk(d: Disk, levels: seq<seq<Lba>>, c: Caps, q: nat)
    requires Walkable(d, levels, c) && q <= |levels[0]| && Neighbour(levels[0], q) == 0
    ensures q == |levels[0]|
  {
    assert LevelAt(d, levels, 0, c);
  }

  /** Looking at the leaf at place q of the chain, when nothing before it covers the block: the first i records
      do not cover it, and then one does, or the inode is past, or the leaf ends. */
  lemma {:induction false} ScanStep(d: Disk, levels: seq<seq<Lba>>, c: Caps, q: nat, i: nat, ino: nat,
                                    block: nat)
    requires Walkable(d, levels, c) && q < |levels[0]| && levels[0][q] in d && d[levels[0][q]].Leaf?
    requires NoneCovers(Recs(d, levels[0][..q]), ino, block) && i <= |d[levels[0][q]].recs|
    requires NoneCovers(d[levels[0][q]].recs[..i], ino, block)
    ensures var recs := d[levels[0][q]].recs; i < |recs| && CoversBlock(recs[i], ino, block) ==>
      FirstToCover(Recs(d, levels[0]), |Recs(d, levels[0][..q])| + i, recs[i], ino, block)
    ensures var recs := d[levels[0][q]].recs; i < |recs| && recs[i].key.ino > ino ==>
      NoneCovers(Recs(d, levels[0]), ino, block)
    ensures i == |d[levels[0][q]].recs| ==> NoneCovers(Recs(d, levels[0][..q + 1]), ino, block)
  {
    LeafOnChain(d, levels, c, q);
    hide Recs, SortedRecs;
    var x, recs, y := Recs(d, levels[0][..q]), d[levels[0][q]].recs, Recs(d, levels[0][q + 1..]);
    if i < |recs| && CoversBlock(recs[i], ino, block) {
      FirstCover(x, recs, y, i, ino, block);
    }
    if i < |recs| && recs[i].key.ino > ino {
      PastTheInode(x, recs, y, i, ino);
      NoneCoversAll(x, recs, y, i, ino, block);
    }
    if i == |recs| {
      assert recs[..i] == recs;
    }
  }

  lemma {:induction false} NoneCoversLeft(s: seq<Extent>, ino: nat, block: nat)
    requires InosBelow(s, ino)
    ensures NoneCovers(s, ino, block)
  {
  }

  /** Record r at position n is the first of the sequence to cover the block. */
  ghost predicate FirstToCover(s: seq<Extent>, n: nat, r: Extent, ino: nat, block: nat) {
    && n < |s| && s[n] == r && CoversBlock(r, ino, block)
    && forall j | 0 <= j < n :: !CoversBlock(s[j], ino, block)
  }

  /** The leaves left of the first one visited hold nothing of the inode. */
  lemma {:induction false} NothingToClear(d: Disk, levels: seq<seq<Lba>>, c: Caps, q: nat, ino: nat)
    requires Walkable(d, levels, c) && q <= |levels[0]| && InosBelow(Recs(d, levels[0][..q]), ino)
    ensures ClearedIn(d, d, levels[0][..q], ino)
  {
    forall i | 0 <= i < q
      ensures levels[0][i] in d && d[levels[0][i]].Leaf? && Without(d[levels[0][i]].recs, ino) == d[levels[0][i]].recs
    {
      LeafOnChain(d, levels, c, i);
      RecsInside(d, levels[0][..q], i);
      var recs := d[levels[0][i]].recs;
      forall t | 0 <= t < |recs| ensures recs[t].key.ino != ino {
        assert recs[t] in Recs(d, levels[0][..q]);
      }
      OfNone(recs, ino);
    }
  }

  /** Records of a leaf are records of the level. */
  lemma {:induction false} RecsInside(d: Disk, l: seq<Lba>, i: nat)
    requires i < |l|
    ensures forall r | r in RecsAt(d, l[i]) :: r in Recs(d, l)
  {
    RecsAround(d, l, i);
  }

  lemma {:induction false} UnclearedLeaf(d0: Disk, d: Disk, l: seq<Lba>, q: nat, ino: nat)
    requires q < |l| && l[q] in d0 && l[q] !in l[..q] && ClearedIn(d0, d, l[..q], ino)
    ensures l[q] in d && d[l[q]] == d0[l[q]]
  {
  }

  lemma {:induction false} ClearedMore(d0: Disk, d: Disk, d': Disk, l: seq<Lba>, q: nat, ino: nat)
    requires q < |l| && l[q] in d0 && d0[l[q]].Leaf? && l[q] !in l[..q]
    requires ClearedIn(d0, d, l[..q], ino)
    requires l[q] in d && d[l[q]].Leaf? && d' == d[l[q] := d[l[q]].(recs := Without(d[l[q]].recs, ino))]
    ensures ClearedIn(d0, d', l[..q + 1], ino) && d'[l[q]].right == d0[l[q]].right
  {
    assert l[..q + 1] == l[..q] + [l[q]];
    assert d'.Keys == d0.Keys;
  }

  /** Once a larger inode was seen the remaining leaves need no change. */
  lemma {:induction false} RestUntouched(d0: Disk, d: Disk, levels: seq<seq<Lba>>, c: Caps, q: nat, ino: nat)
    requires Walkable(d0, levels, c) && q < |levels[0]| && ClearedIn(d0, d, levels[0][..q + 1], ino)
    requires levels[0][q] in d0 && d0[levels[0][q]].Leaf?
    requires exists i :: 0 <= i < |d0[levels[0][q]].recs| && d0[levels[0][q]].recs[i].key.ino > ino
    ensures ClearedIn(d0, d, levels[0], ino)
  {
    var leaves := levels[0];
    var recs := d0[leaves[q]].recs;
    hide Ordered, Recs, Without, ClearedIn, InosAbove, SortedRecs;
    var i :| 0 <= i < |recs| && recs[i].key.ino > ino;
    LeafOnChain(d0, levels, c, q);
    PastTheInode(Recs(d0, leaves[..q]), recs, Recs(d0, leaves[q + 1..]), i, ino);
    RestAbove(recs, i, Recs(d0, leaves[q + 1..]), ino);
    forall j | q < j < |leaves|
      ensures leaves[j] in d0 && d0[leaves[j]].Leaf? && Without(d0[leaves[j]].recs, ino) == d0[leaves[j]].recs
    {
      LeafOnChain(d0, levels, c, j);
      UntouchedLeaf(d0, leaves, q, j, ino);
    }
    ClearedRest(d0, d, leaves, q, ino);
  }

  lemma {:induction false} UntouchedLeaf(d: Disk, l: seq<Lba>, q: nat, j: nat, ino: nat)
    requires q < j < |l| && InosAbove(Recs(d, l[q + 1..]), ino)
    ensures Without(RecsAt(d, l[j]), ino) == RecsAt(d, l[j])
  {
    assert l[q + 1..][j - q - 1] == l[j];
    RecsInside(d, l[q + 1..], j - q - 1);
    var recs := RecsAt(d, l[j]);
    forall t | 0 <= t < |recs| ensures recs[t].key.ino != ino {
      assert recs[t] in Recs(d, l[q + 1..]);
    }
    OfNone(recs, ino);
  }

  lemma {:induction false} RestAbove(recs: seq<Extent>, i: nat, y: seq<Extent>, ino: nat)
    requires i < |recs| && InosAbove(recs[i..] + y, ino)
    ensures InosAbove(y, ino)
  {
    forall j | 0 <= j < |y| ensures y[j].key.ino > ino {
      assert y[j] == (recs[i..] + y)[|recs| - i + j];
    }
  }

  lemma {:induction false} ClearedRest(d0: Disk, d: Disk, l: seq<Lba>, q: nat, ino: nat)
    requires q < |l| && ClearedIn(d0, d, l[..q + 1], ino)
    requires forall j | q < j < |l| :: l[j] in d0 && d0[l[j]].Leaf? && Without(d0[l[j]].recs, ino) == d0[l[j]].recs
    ensures ClearedIn(d0, d, l, ino)
  {
    var rest := l[q + 1..];
    assert l == l[..q + 1] + rest;
    forall x | x in rest ensures x in d0 && d0[x].Leaf? && Without(d0[x].recs, ino) == d0[x].recs {
      var j :| 0 <= j < |rest| && rest[j] == x;
      assert l[q + 1 + j] == x;
    }
  }

  /** The cleared tree, as a skeleton and as a map. */
  lemma {:induction false} ClearedTree(d0: Disk, d: Disk, levels: seq<seq<Lba>>, root: Lba, c: Caps, ino: nat)
    requires Bare(d0, levels, root, c) && SortedRecs(Recs(d0, levels[0])) && ClearedIn(d0, d, levels[0], ino)
    ensures Bare(d, levels, root, c) && |d| == |d0| && d.Keys == d0.Keys
    ensures Recs(d, levels[0]) == Without(Recs(d0, levels[0]), ino)
    ensures SortedRecs(Recs(d, levels[0])) && AsMap(Recs(d, levels[0])) == OtherInodes(AsMap(Recs(d0, levels[0])), ino)
  {
    ClearedRecs(d0, d, levels[0], levels[0], ino);
    WithoutMap(Recs(d0, levels[0]), ino);
    ClearedPlaced(d0, d, levels, ino);
    assert d.Keys == d0.Keys;
    hide ClearedIn;
    forall h | 0 <= h < |levels| ensures LevelAt(d, levels, h, c) {
      assert LevelAt(d0, levels, h, c);
      ClearedLevel(d0, d, levels[0], h, levels[h], c, ino);
    }
    forall h | 1 <= h < |levels| ensures LinkAt(d, levels, h) {
      assert LinkAt(d0, levels, h);
      ClearedEntries(d0, d, levels[0], levels[h], ino);
    }
  }
}
