/** On-disk nodes of the overflow-extent B+Tree and the flat view of a tree level.

A tree is described by its levels: `levels[h]` lists, left to right, the LBAs of the nodes at
height `h` (leaves at height 0, the root alone at the top). Everything the tree promises can be
said about the concatenated records of the leaf level and the concatenated entries of each
index level. */
module OverflowNodes {

  type Lba = nat

  /** Composite key, ordered by inode first and logical offset second. */
  datatype Key = Key(ino: nat, off: nat)

  predicate Lt(a: Key, b: Key) {
    a.ino < b.ino || (a.ino == b.ino && a.off < b.off)
  }

  /** An overflow_extent record. */
  datatype Extent = Extent(key: Key, start: nat, blocks: nat, logical: nat)

  /** An overflow_index_entry. */
  datatype Entry = Entry(key: Key, child: Lba)

  datatype Node =
    | Leaf(left: Lba, right: Lba, recs: seq<Extent>)
    | Index(level: nat, left: Lba, right: Lba, entries: seq<Entry>)

  type Disk = map<Lba, Node>

  function Level(n: Node): nat {
    if n.Leaf? then 0 else n.level
  }

  function RecsAt(d: Disk, l: Lba): seq<Extent> {
    if l in d && d[l].Leaf? then d[l].recs else []
  }

  function EntriesAt(d: Disk, l: Lba): seq<Entry> {
    if l in d && d[l].Index? then d[l].entries else []
  }

  /** Number of keys in a node (node_keys). */
  function Size(n: Node): nat {
    if n.Leaf? then |n.recs| else |n.entries|
  }

  /** The key stored in slot 0. */
  function FirstKey(n: Node): Key
    requires Size(n) > 0
  {
    if n.Leaf? then n.recs[0].key else n.entries[0].key
  }

  // ----- the flat view of a level

  function Recs(d: Disk, lbas: seq<Lba>): seq<Extent> {
    if lbas == [] then [] else RecsAt(d, lbas[0]) + Recs(d, lbas[1..])
  }

  function Entries(d: Disk, lbas: seq<Lba>): seq<Entry> {
    if lbas == [] then [] else EntriesAt(d, lbas[0]) + Entries(d, lbas[1..])
  }

  ghost predicate SortedRecs(s: seq<Extent>) {
    forall i, j | 0 <= i < j < |s| :: Lt(s[i].key, s[j].key)
  }

  ghost predicate SortedEntries(s: seq<Entry>) {
    forall i, j | 0 <= i < j < |s| :: Lt(s[i].key, s[j].key)
  }

  lemma {:induction false} RecsConcat(d: Disk, a: seq<Lba>, b: seq<Lba>)
    ensures Recs(d, a + b) == Recs(d, a) + Recs(d, b)
  {
    if a == [] {
      assert a + b == b;
    } else {
      assert (a + b)[1..] == a[1..] + b;
      RecsConcat(d, a[1..], b);
    }
  }

  lemma {:induction false} EntriesConcat(d: Disk, a: seq<Lba>, b: seq<Lba>)
    ensures Entries(d, a + b) == Entries(d, a) + Entries(d, b)
  {
    if a == [] {
      assert a + b == b;
    } else {
      assert (a + b)[1..] == a[1..] + b;
      EntriesConcat(d, a[1..], b);
    }
  }

  lemma {:induction false} RecsFrame(d: Disk, d': Disk, a: seq<Lba>)
    requires forall l | l in a :: RecsAt(d, l) == RecsAt(d', l)
    ensures Recs(d, a) == Recs(d', a)
  {
    if a != [] {
      RecsFrame(d, d', a[1..]);
    }
  }

  lemma {:induction false} EntriesFrame(d: Disk, d': Disk, a: seq<Lba>)
    requires forall l | l in a :: EntriesAt(d, l) == EntriesAt(d', l)
    ensures Entries(d, a) == Entries(d', a)
  {
    if a != [] {
      EntriesFrame(d, d', a[1..]);
    }
  }

  /** The records of a level around its node at position p. */
  lemma {:induction false} RecsAround(d: Disk, l: seq<Lba>, p: nat)
    requires p < |l|
    ensures Recs(d, l) == Recs(d, l[..p]) + RecsAt(d, l[p]) + Recs(d, l[p + 1..])
    ensures Recs(d, l[..p + 1]) == Recs(d, l[..p]) + RecsAt(d, l[p])
  {
    assert l == l[..p + 1] + l[p + 1..];
    RecsConcat(d, l[..p + 1], l[p + 1..]);
    assert l[..p + 1] == l[..p] + [l[p]];
    RecsConcat(d, l[..p], [l[p]]);
    assert Recs(d, [l[p]]) == RecsAt(d, l[p]);
  }

  /** The entries of a level around its node at position p. */
  lemma {:induction false} EntriesAround(d: Disk, l: seq<Lba>, p: nat)
    requires p < |l|
    ensures Entries(d, l) == Entries(d, l[..p]) + EntriesAt(d, l[p]) + Entries(d, l[p + 1..])
    ensures Entries(d, l[..p + 1]) == Entries(d, l[..p]) + EntriesAt(d, l[p])
  {
    assert l == l[..p + 1] + l[p + 1..];
    EntriesConcat(d, l[..p + 1], l[p + 1..]);
    assert l[..p + 1] == l[..p] + [l[p]];
    EntriesConcat(d, l[..p], [l[p]]);
    assert Entries(d, [l[p]]) == EntriesAt(d, l[p]);
  }

  // ----- sibling links

  ghost predicate OnDisk(d: Disk, l: seq<Lba>) {
    forall i | 0 <= i < |l| :: l[i] in d
  }

  ghost predicate Distinct(l: seq<Lba>) {
    forall i, j | 0 <= i < j < |l| :: l[i] != l[j]
  }

  function Neighbour(l: seq<Lba>, i: int): Lba {
    if 0 <= i < |l| then l[i] else 0
  }

  /** The links of node i of a level are its in-order neighbours, 0 at both ends. */
  ghost predicate LinkedAt(d: Disk, l: seq<Lba>, i: nat)
    requires i < |l| && l[i] in d
  {
    d[l[i]].left == Neighbour(l, i - 1) && d[l[i]].right == Neighbour(l, i + 1)
  }

  ghost predicate Chained(d: Disk, l: seq<Lba>)
    requires OnDisk(d, l)
  {
    forall i {:trigger LinkedAt(d, l, i)} | 0 <= i < |l| :: LinkedAt(d, l, i)
  }

  /** l' is l with a new element inserted right after position p. */
  ghost predicate InsertedAfter<T>(l: seq<T>, l': seq<T>, p: nat, x: T) {
    && p < |l|
    && |l'| == |l| + 1
    && (forall i {:trigger l'[i]} | 0 <= i <= p :: l'[i] == l[i])
    && l'[p + 1] == x
    && (forall i {:trigger l'[i]} | p + 1 < i < |l'| :: l'[i] == l[i - 1])
  }

  /** The two nodes hold the same keys and payload; only their links may differ. */
  predicate SameKeys(n: Node, m: Node) {
    if n.Leaf? then m.Leaf? && m.recs == n.recs
    else m.Index? && m.level == n.level && m.entries == n.entries
  }

  /** The disk after node l was split into `a` (kept in place) and `b` (at the new LBA `fresh_`),
      the old right neighbour being linked back to the new node. */
  ghost predicate SplitDisk(d: Disk, d': Disk, l: Lba, a: Node, fresh_: Lba, b: Node)
  {
    && l in d && fresh_ !in d && fresh_ != 0
    && d'.Keys == d.Keys + {fresh_}
    && d'[l] == a && d'[fresh_] == b
    && a.left == d[l].left && a.right == fresh_ && b.left == l && b.right == d[l].right
    && (forall x {:trigger d'[x]} | x in d && x != l ::
        d'[x] == if x == b.right && x != 0 then d[x].(left := fresh_) else d[x])
  }

  lemma {:induction false} SplitKeepsChain(d: Disk, d': Disk, l: seq<Lba>, l': seq<Lba>, p: nat, a: Node, fresh_: Lba,
                                           b: Node)
    requires OnDisk(d, l) && Chained(d, l) && Distinct(l) && 0 !in l
    requires p < |l| && SplitDisk(d, d', l[p], a, fresh_, b) && InsertedAfter(l, l', p, fresh_)
    ensures OnDisk(d', l') && Chained(d', l') && Distinct(l') && 0 !in l'
  {
    InsertedDistinct(d, l, l', p, fresh_);
    forall i | 0 <= i < |l'| ensures l'[i] in d' {
      assert l'[i] == fresh_ || l'[i] == l[if i <= p then i else i - 1];
    }
    forall i | 0 <= i < |l'| ensures LinkedAt(d', l', i) {
      SplitLinksAt(d, d', l, l', p, a, fresh_, b, i);
    }
  }

  lemma {:induction false} InsertedDistinct(d: Disk, l: seq<Lba>, l': seq<Lba>, p: nat, fresh_: Lba)
    requires OnDisk(d, l) && Distinct(l) && 0 !in l && fresh_ !in d && fresh_ != 0 && InsertedAfter(l, l', p, fresh_)
    ensures Distinct(l') && 0 !in l'
  {
    forall i, j | 0 <= i < j < |l'| ensures l'[i] != l'[j] {
      assert l'[i] == fresh_ || l'[i] == l[if i <= p then i else i - 1];
      assert l'[j] == fresh_ || l'[j] == l[if j <= p then j else j - 1];
    }
  }

  lemma {:induction false} SplitLinksAt(d: Disk, d': Disk, l: seq<Lba>, l': seq<Lba>, p: nat, a: Node, fresh_: Lba,
                                        b: Node, i: nat)
    requires OnDisk(d, l) && Chained(d, l) && Distinct(l) && 0 !in l
    requires p < |l| && SplitDisk(d, d', l[p], a, fresh_, b) && InsertedAfter(l, l', p, fresh_)
    requires i < |l'| && l'[i] in d'
    ensures LinkedAt(d', l', i)
  {
    assert LinkedAt(d, l, p);
    assert l'[p] == l[p] && l'[p + 1] == fresh_;
    if i != p && i != p + 1 {
      var j := if i < p then i else i - 1;
      assert l'[i] == l[j] && l[j] != l[p];
      assert LinkedAt(d, l, j);
      assert l[j] == b.right <==> j == p + 1;
    }
  }
}
