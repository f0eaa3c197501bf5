/** What it means for a disk of nodes to be an overflow B+Tree. */
module OverflowShape {
  import opened OverflowNodes

  /** Node capacities, derived by the source from the block size. */
  datatype Caps = Caps(leaf: nat, index: nat)

  /** With these capacities every split leaves both halves non-empty and a root can hold two entries. */
  predicate CapsOk(c: Caps) {
    c.leaf >= 1 && c.index >= 2
  }

  function Cap(c: Caps, h: nat): nat {
    if h == 0 then c.leaf else c.index
  }

  ghost predicate NodeOk(n: Node, h: nat, c: Caps) {
    && Level(n) == h
    && (n.Leaf? <==> h == 0)
    && Size(n) <= Cap(c, h)
    && (h > 0 ==> Size(n) > 0)
  }

  /** One level: distinct nodes of the right height, chained to their in-order neighbours. */
  ghost predicate LevelOk(d: Disk, h: nat, l: seq<Lba>, c: Caps) {
    && |l| >= 1
    && OnDisk(d, l) && Distinct(l) && 0 !in l && Chained(d, l)
    && (forall i | 0 <= i < |l| :: NodeOk(d[l[i]], h, c))
  }

  /** The children of a level, in order, are the level below, and its separators increase. */
  ghost predicate Kids(d: Disk, upper: seq<Lba>, lower: seq<Lba>) {
    var e := Entries(d, upper);
    && |e| == |lower|
    && (forall j | 0 <= j < |e| :: e[j].child == lower[j])
    && SortedEntries(e)
  }

  ghost predicate LevelAt(d: Disk, levels: seq<seq<Lba>>, h: nat, c: Caps)
    requires h < |levels|
  {
    LevelOk(d, h, levels[h], c)
  }

  ghost predicate KidsAt(d: Disk, levels: seq<seq<Lba>>, h: nat)
    requires 1 <= h < |levels|
  {
    Kids(d, levels[h], levels[h - 1])
  }

  /** The nodes on the disk are those of the levels: all leaves at the same depth, one root. */
  ghost predicate Shape(d: Disk, levels: seq<seq<Lba>>, root: Lba, c: Caps) {
    && |levels| >= 1
    && levels[|levels| - 1] == [root]
    && (forall h {:trigger LevelAt(d, levels, h, c)} | 0 <= h < |levels| :: LevelAt(d, levels, h, c))
    && (forall h {:trigger KidsAt(d, levels, h)} | 1 <= h < |levels| :: KidsAt(d, levels, h))
    && SortedRecs(Recs(d, levels[0]))
    && (forall x | x in d :: Level(d[x]) < |levels| && x in levels[Level(d[x])])
  }

  // ----- exact separators (insert-only trees)

  /** Every node has a key, and the slot-0 key of a node other than the first of its level equals
      the key of the entry that points at it. */
  ghost predicate ExactLink(d: Disk, upper: seq<Lba>, lower: seq<Lba>)
  {
    var e := Entries(d, upper);
    && |e| == |lower|
    && (forall j | 1 <= j < |e| :: lower[j] in d && Size(d[lower[j]]) > 0 && e[j].key == FirstKey(d[lower[j]]))
  }

  ghost predicate ExactAt(d: Disk, levels: seq<seq<Lba>>, h: nat)
    requires 1 <= h < |levels|
  {
    ExactLink(d, levels[h], levels[h - 1])
  }

  ghost predicate Exact(d: Disk, levels: seq<seq<Lba>>, root: Lba, c: Caps) {
    && Shape(d, levels, root, c)
    && (forall x | x in d :: Size(d[x]) > 0)
    && (forall h {:trigger ExactAt(d, levels, h)} | 1 <= h < |levels| :: ExactAt(d, levels, h))
  }

  // ----- separators as bounds (any tree that inserts and then clears produce)

  /** Number of entries held by the first p nodes of a level, i.e. the position in the level below
      of the first child of node p. */
  function Start(d: Disk, l: seq<Lba>, p: nat): nat
    requires p <= |l|
  {
    |Entries(d, l[..p])|
  }

  /** Position in the leaf level of the leftmost leaf below node p of height h. */
  function LeftLeaf(d: Disk, levels: seq<seq<Lba>>, h: nat, p: nat): nat
    requires h < |levels|
    decreases h
  {
    if h == 0 then p
    else if p <= |levels[h]| then LeftLeaf(d, levels, h - 1, Start(d, levels[h], p)) else 0
  }

  /** The records stored to the left of node p of height h. */
  function Before(d: Disk, levels: seq<seq<Lba>>, h: nat, p: nat): seq<Extent>
    requires h < |levels|
  {
    var n := LeftLeaf(d, levels, h, p);
    if n <= |levels[0]| then Recs(d, levels[0][..n]) else []
  }

  /** The records stored in node p of height h and to its right. */
  function From(d: Disk, levels: seq<seq<Lba>>, h: nat, p: nat): seq<Extent>
    requires h < |levels|
  {
    var n := LeftLeaf(d, levels, h, p);
    if n <= |levels[0]| then Recs(d, levels[0][n..]) else []
  }

  ghost predicate AllBelow(s: seq<Extent>, k: Key) {
    forall i | 0 <= i < |s| :: Lt(s[i].key, k)
  }

  ghost predicate NoneBelow(s: seq<Extent>, k: Key) {
    forall i | 0 <= i < |s| :: !Lt(s[i].key, k)
  }

  /** Entry j of height h (j >= 1) separates the records left of its child from the rest. */
  ghost predicate Separates(d: Disk, levels: seq<seq<Lba>>, h: nat, j: nat)
    requires 1 <= h < |levels| && j < |Entries(d, levels[h])|
  {
    var k := Entries(d, levels[h])[j].key;
    && LeftLeaf(d, levels, h - 1, j) <= |levels[0]|
    && AllBelow(Before(d, levels, h - 1, j), k) && NoneBelow(From(d, levels, h - 1, j), k)
  }

  ghost predicate Ordered(d: Disk, levels: seq<seq<Lba>>, root: Lba, c: Caps) {
    && Shape(d, levels, root, c)
    && (forall h, j | 1 <= h < |levels| && 1 <= j < |Entries(d, levels[h])| :: Separates(d, levels, h, j))
  }

  // ----- positions inside a level

  /** Entry s of node p is entry Start + s of the level. */
  lemma {:induction false} EntryAt(d: Disk, l: seq<Lba>, p: nat, s: nat)
    requires p < |l| && s < |EntriesAt(d, l[p])|
    ensures Start(d, l, p) + s < |Entries(d, l)|
    ensures Entries(d, l)[Start(d, l, p) + s] == EntriesAt(d, l[p])[s]
  {
    EntriesAround(d, l, p);
  }

  lemma {:induction false} StartNext(d: Disk, l: seq<Lba>, p: nat)
    requires p < |l|
    ensures Start(d, l, p + 1) == Start(d, l, p) + |EntriesAt(d, l[p])|
    ensures Start(d, l, p + 1) <= |Entries(d, l)|
    ensures p + 1 == |l| ==> Start(d, l, p + 1) == |Entries(d, l)|
  {
    EntriesAround(d, l, p);
    if p + 1 == |l| {
      assert l[..p + 1] == l;
    }
  }

  lemma {:induction false} StartGrows(d: Disk, l: seq<Lba>, p: nat)
    requires p <= |l|
    requires forall i | 0 <= i < |l| :: |EntriesAt(d, l[i])| > 0
    ensures p <= Start(d, l, p) <= |Entries(d, l)|
  {
    if p > 0 {
      StartGrows(d, l, p - 1);
      StartNext(d, l, p - 1);
    }
  }

  /** An index level can be used as such. */
  lemma {:induction false} IndexLevel(d: Disk, levels: seq<seq<Lba>>, root: Lba, c: Caps, h: nat, p: nat)
    requires Shape(d, levels, root, c) && 1 <= h < |levels| && p < |levels[h]|
    ensures levels[h][p] in d && d[levels[h][p]].Index?
    ensures EntriesAt(d, levels[h][p]) == d[levels[h][p]].entries
    ensures |d[levels[h][p]].entries| > 0 && SortedEntries(d[levels[h][p]].entries)
  {
    assert LevelAt(d, levels, h, c);
    assert NodeOk(d[levels[h][p]], h, c);
    assert KidsAt(d, levels, h);
    var es := d[levels[h][p]].entries;
    forall i, j | 0 <= i < j < |es| ensures Lt(es[i].key, es[j].key) {
      EntryAt(d, levels[h], p, i);
      EntryAt(d, levels[h], p, j);
    }
  }

  /** The allocator's LBAs are distinct, non-zero and not in use. */
  ghost predicate SupplyOk(d: Disk, supply: seq<Lba>) {
    Distinct(supply) && 0 !in supply && forall i | 0 <= i < |supply| :: supply[i] !in d
  }

  lemma {:induction false} SupplyShrinks(d: Disk, d': Disk, supply: seq<Lba>, x: Lba)
    requires SupplyOk(d, supply) && x !in supply && d'.Keys == d.Keys + {x}
    ensures SupplyOk(d', supply)
  {
  }

  lemma {:induction false} SameSupply(d: Disk, d': Disk, supply: seq<Lba>)
    requires SupplyOk(d, supply) && d'.Keys == d.Keys
    ensures SupplyOk(d', supply)
  {
  }
}
