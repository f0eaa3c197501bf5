/** The value-level steps of an insert: what writing a leaf, splitting a node and updating a parent
    do to the levels of a tree. */
module OverflowInsert {
  import opened OverflowNodes
  import opened OverflowShape
  import opened OverflowOrder
  import opened OverflowSearch

  // ----- contents as a map

  /** The finite map held by a sorted record sequence. */
  ghost function AsMap(s: seq<Extent>): map<Key, Extent>
    requires SortedRecs(s)
  {
    map r | r in s :: r.key := r
  }

  /** t is s with w records at position g replaced by the record e. */
  ghost predicate Placed(s: seq<Extent>, t: seq<Extent>, g: nat, w: nat, e: Extent) {
    && w <= 1 && g + w <= |s| && |t| == |s| + 1 - w
    && (forall i {:trigger t[i]} | 0 <= i < g :: t[i] == s[i])
    && t[g] == e
    && (forall i {:trigger t[i]} | g < i < |t| :: t[i] == s[i - 1 + w])
  }

  /** g is the place of key k in the sorted sequence s: k's own record (w == 1) or a gap. */
  ghost predicate PlaceFor(s: seq<Extent>, g: nat, w: nat, k: Key) {
    && w <= 1 && g + w <= |s|
    && (w == 1 ==> s[g].key == k)
    && (forall i | 0 <= i < g :: Lt(s[i].key, k))
    && (forall i | g + w <= i < |s| :: Lt(k, s[i].key))
  }

  lemma {:induction false} PlacedSorted(s: seq<Extent>, t: seq<Extent>, g: nat, w: nat, e: Extent)
    requires SortedRecs(s) && Placed(s, t, g, w, e) && PlaceFor(s, g, w, e.key)
    ensures SortedRecs(t)
  {
    forall i, j | 0 <= i < j < |t| ensures Lt(t[i].key, t[j].key) {
      if j < g {
      } else if i > g {
        assert t[i] == s[i - 1 + w] && t[j] == s[j - 1 + w];
      } else if j > g {
        assert t[j] == s[j - 1 + w];
        assert i == g || t[i] == s[i];
      }
    }
  }

  /** Inserting a record between the smaller and the larger keys, or over its own key, is a map update. */
  lemma {:induction false} PlacedMap(s: seq<Extent>, t: seq<Extent>, g: nat, w: nat, e: Extent)
    requires SortedRecs(s) && Placed(s, t, g, w, e) && PlaceFor(s, g, w, e.key)
    ensures SortedRecs(t) && AsMap(t) == AsMap(s)[e.key := e]
  {
    PlacedSorted(s, t, g, w, e);
    forall r | r in t ensures r == e || (r in s && r.key != e.key) {
      var i :| 0 <= i < |t| && t[i] == r;
      if i != g {
        var i' := if i < g then i else i - 1 + w;
        assert r == s[i'] && (i' < g || i' >= g + w);
      }
    }
    forall r | r in s && r.key != e.key ensures r in t {
      var i :| 0 <= i < |s| && s[i] == r;
      assert r == t[if i < g then i else i + 1 - w];
    }
    assert e in t by { assert t[g] == e; }
  }

  /** The map after storing the records in order, each over any earlier record of its key. */
  function Updates(m: map<Key, Extent>, es: seq<Extent>): map<Key, Extent> {
    if es == [] then m else Updates(m, es[..|es| - 1])[es[|es| - 1].key := es[|es| - 1]]
  }

  // ----- trees in the middle of a split

  /** The entries point, in order, at the nodes of the level below. */
  ghost predicate PointAt(es: seq<Entry>, l: seq<Lba>) {
    |es| == |l| && forall j | 0 <= j < |es| :: es[j].child == l[j]
  }

  ghost predicate LinkAt(d: Disk, levels: seq<seq<Lba>>, h: nat)
    requires 1 <= h < |levels|
  {
    PointAt(Entries(d, levels[h]), levels[h - 1])
  }

  /** The nodes on the disk are those of the levels. */
  ghost predicate AllPlaced(d: Disk, levels: seq<seq<Lba>>) {
    forall x | x in d :: Level(d[x]) < |levels| && x in levels[Level(d[x])]
  }

  /** The skeleton of a tree, whatever its keys: chained levels, nodes within their capacities, children in order.
      Level `skip` does not (yet) describe the level below it. */
  ghost predicate TreeBut(d: Disk, levels: seq<seq<Lba>>, c: Caps, skip: nat) {
    && |levels| >= 1
    && (forall h {:trigger LevelAt(d, levels, h, c)} | 0 <= h < |levels| :: LevelAt(d, levels, h, c))
    && (forall h {:trigger LinkAt(d, levels, h)} | 1 <= h < |levels| && h != skip :: LinkAt(d, levels, h))
    && AllPlaced(d, levels)
  }

  /** A whole skeleton. */
  ghost predicate Bare(d: Disk, levels: seq<seq<Lba>>, root: Lba, c: Caps) {
    TreeBut(d, levels, c, 0) && levels[|levels| - 1] == [root]
  }

  lemma {:induction false} ShapeIsBare(d: Disk, levels: seq<seq<Lba>>, root: Lba, c: Caps)
    requires Shape(d, levels, root, c)
    ensures Bare(d, levels, root, c)
  {
    forall h | 1 <= h < |levels| ensures LinkAt(d, levels, h) {
      assert KidsAt(d, levels, h);
    }
  }

  /** Position, among nodes of which node q has just become two, of what was node j. */
  function Shift(q: nat, j: nat): nat {
    if j <= q then j else j + 1
  }

  /** Entry q of the level above still describes one node where there are now two. */
  ghost predicate Pending(e: seq<Entry>, l: seq<Lba>, q: nat) {
    && |l| == |e| + 1 && q < |e|
    && (forall j {:trigger e[j]} | 0 <= j < |e| :: e[j].child == l[Shift(q, j)])
  }

  /** The entries with entry q refreshed and its new sibling inserted after it. */
  function Combined(e: seq<Entry>, q: nat, left: Entry, push: Entry): seq<Entry>
    requires q < |e|
  {
    e[..q] + [left, push] + e[q + 1..]
  }

  /** Refreshing entry q and inserting the new sibling settles a pending split. */
  lemma {:induction false} SettlePending(e: seq<Entry>, l: seq<Lba>, q: nat, left: Entry, push: Entry)
    requires Pending(e, l, q) && left.child == l[q] && push.child == l[q + 1]
    ensures PointAt(Combined(e, q, left, push), l)
  {
    var t := Combined(e, q, left, push);
    CombinedIndex(e, q, left, push);
    forall j | 0 <= j < |t| ensures t[j].child == l[j] {
      if j < q {
        assert t[j] == e[j] && Shift(q, j) == j;
      } else if j > q + 1 {
        assert t[j] == e[j - 1] && Shift(q, j - 1) == j;
      }
    }
  }

  /** Combined, position by position. */
  ghost predicate Doubled(e: seq<Entry>, t: seq<Entry>, q: nat, left: Entry, push: Entry) {
    && q < |e| && |t| == |e| + 1
    && (forall j {:trigger t[j]} | 0 <= j < q :: t[j] == e[j])
    && t[q] == left && t[q + 1] == push
    && (forall j {:trigger t[j]} | q + 1 < j < |t| :: t[j] == e[j - 1])
  }

  lemma {:induction false} CombinedIndex(e: seq<Entry>, q: nat, left: Entry, push: Entry)
    requires q < |e|
    ensures Doubled(e, Combined(e, q, left, push), q, left, push)
  {
  }

  // ----- writing one node, splitting one node

  lemma {:induction false} HeightOf(d: Disk, levels: seq<seq<Lba>>, c: Caps, skip: nat, g: nat, i: nat)
    requires TreeBut(d, levels, c, skip) && g < |levels| && i < |levels[g]|
    ensures levels[g][i] in d && levels[g][i] != 0 && NodeOk(d[levels[g][i]], g, c)
  {
    assert LevelAt(d, levels, g, c);
  }

  lemma {:induction false} ElsewhereLevel(d: Disk, d': Disk, levels: seq<seq<Lba>>, levels': seq<seq<Lba>>, c: Caps,
                                          skip: nat, h: nat, g: nat)
    requires TreeBut(d, levels, c, skip) && SameElsewhere(d, d', levels, h)
    requires g < |levels| == |levels'| && g != h && levels'[g] == levels[g]
    ensures LevelAt(d', levels', g, c)
  {
    assert LevelAt(d, levels, g, c);
    var l := levels[g];
    forall i | 0 <= i < |l| ensures l[i] in d' && NodeOk(d'[l[i]], g, c) && LinkedAt(d', l, i) {
      assert levels[g][i] == l[i];
      assert LinkedAt(d, l, i);
    }
  }

  lemma {:induction false} ElsewhereEntries(d: Disk, d': Disk, levels: seq<seq<Lba>>, h: nat, g: nat)
    requires SameElsewhere(d, d', levels, h) && g < |levels| && g != h
    ensures Entries(d', levels[g]) == Entries(d, levels[g])
  {
    forall x | x in levels[g] ensures EntriesAt(d, x) == EntriesAt(d', x) {
      var i :| 0 <= i < |levels[g]| && levels[g][i] == x;
    }
    EntriesFrame(d, d', levels[g]);
  }

  lemma {:induction false} ElsewhereLink(d: Disk, d': Disk, levels: seq<seq<Lba>>, levels': seq<seq<Lba>>, h: nat,
                                         g: nat)
    requires SameElsewhere(d, d', levels, h)
    requires 1 <= g < |levels| == |levels'| && g != h
    requires levels'[g] == levels[g] && levels'[g - 1] == levels[g - 1] && LinkAt(d, levels, g)
    ensures LinkAt(d', levels', g)
  {
    ElsewhereEntries(d, d', levels, h, g);
  }

  /** Rewriting node p of height h in place, its links unchanged. */
  lemma {:induction false} NodeWritten(d: Disk, d': Disk, levels: seq<seq<Lba>>, c: Caps, h: nat, p: nat, n: Node)
    requires TreeBut(d, levels, c, h) && h < |levels| && p < |levels[h]| && levels[h][p] in d
    requires d' == d[levels[h][p] := n] && NodeOk(n, h, c)
    requires n.left == d[levels[h][p]].left && n.right == d[levels[h][p]].right
    requires h > 0 ==> LinkAt(d', levels, h)
    ensures TreeBut(d', levels, c, 0)
  {
    hide LevelOk, PointAt, Entries, SameElsewhere;
    HeightOf(d, levels, c, h, h, p);
    WrittenElsewhere(d, d', levels, c, h, p);
    forall g | 0 <= g < |levels| ensures LevelAt(d', levels, g, c) {
      if g == h {
        WrittenLevel(d, d', levels[h], h, c, p, n) by { assert LevelAt(d, levels, h, c); }
      } else {
        ElsewhereLevel(d, d', levels, levels, c, h, h, g);
      }
    }
    forall g | 1 <= g < |levels| ensures LinkAt(d', levels, g) {
      if g != h {
        assert LinkAt(d, levels, g);
        ElsewhereLink(d, d', levels, levels, h, g);
      }
    }
  }

  lemma {:induction false} WrittenElsewhere(d: Disk, d': Disk, levels: seq<seq<Lba>>, c: Caps, h: nat, p: nat)
    requires TreeBut(d, levels, c, h) && h < |levels| && p < |levels[h]|
    requires forall x | x in d && x != levels[h][p] :: x in d' && d'[x] == d[x]
    ensures SameElsewhere(d, d', levels, h)
  {
    HeightOf(d, levels, c, h, h, p);
    forall g, i | 0 <= g < |levels| && g != h && 0 <= i < |levels[g]|
      ensures levels[g][i] in d && levels[g][i] in d' && d'[levels[g][i]] == d[levels[g][i]]
    {
      HeightOf(d, levels, c, h, g, i);
    }
  }

  lemma {:induction false} WrittenLevel(d: Disk, d': Disk, l: seq<Lba>, h: nat, c: Caps, p: nat, n: Node)
    requires LevelOk(d, h, l, c) && p < |l| && d' == d[l[p] := n] && NodeOk(n, h, c)
    requires n.left == d[l[p]].left && n.right == d[l[p]].right
    ensures LevelOk(d', h, l, c)
  {
    forall i | 0 <= i < |l| ensures LinkedAt(d', l, i) {
      assert LinkedAt(d, l, i);
    }
  }

  /** Between two trees, node p of height h was split into `a` and `b`. */
  ghost predicate SplitAt(d: Disk, d': Disk, levels: seq<seq<Lba>>, levels': seq<seq<Lba>>, h: nat, p: nat,
                          a: Node, fresh_: Lba, b: Node)
  {
    && h < |levels| == |levels'| && p < |levels[h]| && levels[h][p] in d
    && SplitDisk(d, d', levels[h][p], a, fresh_, b)
    && InsertedAfter(levels[h], levels'[h], p, fresh_)
    && (forall g | 0 <= g < |levels| && g != h :: levels'[g] == levels[g])
  }

  /** Splitting node p of height h: the level above becomes pending, everything else stays in order. */
  lemma {:induction false} NodeSplit(d: Disk, d': Disk, levels: seq<seq<Lba>>, levels': seq<seq<Lba>>, c: Caps, h: nat,
                                     p: nat, a: Node, fresh_: Lba, b: Node)
    requires TreeBut(d, levels, c, h) && SplitAt(d, d', levels, levels', h, p, a, fresh_, b)
    requires NodeOk(a, h, c) && NodeOk(b, h, c)
    requires h > 0 ==> LinkAt(d', levels', h)
    ensures TreeBut(d', levels', c, h + 1)
    ensures h + 1 < |levels| ==> Pending(Entries(d', levels'[h + 1]), levels'[h], p)
  {
    hide LevelOk, SplitDisk, PointAt, Entries, Pending, AllPlaced, InsertedAfter, SameElsewhere;
    SplitElsewhere(d, d', levels, c, h, p, a, fresh_, b);
    forall g | 0 <= g < |levels| ensures LevelAt(d', levels', g, c) {
      if g == h {
        SplitLevel(d, d', levels[h], levels'[h], h, c, p, a, fresh_, b) by { assert LevelAt(d, levels, h, c); }
      } else {
        ElsewhereLevel(d, d', levels, levels', c, h, h, g);
      }
    }
    forall g | 1 <= g < |levels| && g != h + 1 ensures LinkAt(d', levels', g) {
      if g != h {
        assert LinkAt(d, levels, g);
        ElsewhereLink(d, d', levels, levels', h, g);
      }
    }
    SplitPlaced(d, d', levels, levels', c, h, p, a, fresh_, b);
    if h + 1 < |levels| {
      assert LinkAt(d, levels, h + 1);
      ElsewhereEntries(d, d', levels, h, h + 1);
      SplitPending(Entries(d, levels[h + 1]), levels[h], levels'[h], p, fresh_);
    }
  }

  lemma {:induction false} SplitElsewhere(d: Disk, d': Disk, levels: seq<seq<Lba>>, c: Caps, h: nat, p: nat, a: Node,
                                          fresh_: Lba, b: Node)
    requires TreeBut(d, levels, c, h) && h < |levels| && p < |levels[h]|
    requires SplitDisk(d, d', levels[h][p], a, fresh_, b)
    ensures SameElsewhere(d, d', levels, h)
  {
    HeightOf(d, levels, c, h, h, p);
    assert LevelAt(d, levels, h, c);
    assert LinkedAt(d, levels[h], p);
    if p + 1 < |levels[h]| {
      HeightOf(d, levels, c, h, h, p + 1);
    }
    forall g, i | 0 <= g < |levels| && g != h && 0 <= i < |levels[g]|
      ensures levels[g][i] in d && levels[g][i] in d' && d'[levels[g][i]] == d[levels[g][i]]
    {
      HeightOf(d, levels, c, h, g, i);
    }
  }

  lemma {:induction false} SplitLevel(d: Disk, d': Disk, l: seq<Lba>, l': seq<Lba>, h: nat, c: Caps, p: nat, a: Node,
                                      fresh_: Lba, b: Node)
    requires LevelOk(d, h, l, c) && p < |l| && SplitDisk(d, d', l[p], a, fresh_, b) && InsertedAfter(l, l', p, fresh_)
    requires NodeOk(a, h, c) && NodeOk(b, h, c)
    ensures LevelOk(d', h, l', c)
  {
    SplitKeepsChain(d, d', l, l', p, a, fresh_, b);
    forall i | 0 <= i < |l'| ensures NodeOk(d'[l'[i]], h, c) {
      assert l'[i] == fresh_ || l'[i] == l[if i <= p then i else i - 1];
    }
  }

  lemma {:induction false} SplitPlaced(d: Disk, d': Disk, levels: seq<seq<Lba>>, levels': seq<seq<Lba>>, c: Caps,
                                       h: nat, p: nat, a: Node, fresh_: Lba, b: Node)
    requires TreeBut(d, levels, c, h) && SplitAt(d, d', levels, levels', h, p, a, fresh_, b)
    requires Level(a) == h && Level(b) == h
    ensures AllPlaced(d', levels')
  {
    forall x | x in d' ensures Level(d'[x]) < |levels'| && x in levels'[Level(d'[x])] {
      if x == fresh_ {
        assert levels'[h][p + 1] == x;
      } else if x == levels[h][p] {
        assert levels'[h][p] == x;
      } else {
        assert x in d && SameKeys(d[x], d'[x]);
        var g := Level(d[x]);
        var i :| 0 <= i < |levels[g]| && levels[g][i] == x;
        if g == h {
          assert levels'[h][if i <= p then i else i + 1] == x;
        }
      }
    }
  }

  lemma {:induction false} SplitPending(e: seq<Entry>, l: seq<Lba>, l': seq<Lba>, p: nat, fresh_: Lba)
    requires PointAt(e, l) && p < |l| && InsertedAfter(l, l', p, fresh_)
    ensures Pending(e, l', p)
  {
    forall j | 0 <= j < |e| ensures l'[Shift(p, j)] == l[j] {
    }
  }

  // ----- the flat view of a written or split level

  lemma {:induction false} WrittenEntries(d: Disk, d': Disk, l: seq<Lba>, p: nat, n: Node)
    requires Distinct(l) && p < |l| && n.Index? && d' == d[l[p] := n]
    ensures Entries(d', l) == Entries(d, l[..p]) + n.entries + Entries(d, l[p + 1..])
  {
    EntriesAround(d', l, p);
    EntriesFrame(d, d', l[..p]);
    EntriesFrame(d, d', l[p + 1..]);
  }

  /** After a split the nodes other than the two halves hold what they held. */
  lemma {:induction false} SplitAround(d: Disk, d': Disk, l: seq<Lba>, l': seq<Lba>, p: nat, a: Node, fresh_: Lba,
                                       b: Node)
    requires Distinct(l) && OnDisk(d, l) && p < |l|
    requires SplitDisk(d, d', l[p], a, fresh_, b) && InsertedAfter(l, l', p, fresh_)
    ensures l' == l[..p] + [l[p]] + [fresh_] + l[p + 1..]
    ensures Entries(d', l[..p]) == Entries(d, l[..p]) && Entries(d', l[p + 1..]) == Entries(d, l[p + 1..])
  {
    hide Entries;
    forall x | x in l[..p] || x in l[p + 1..] ensures EntriesAt(d, x) == EntriesAt(d', x) {
      assert x in d && x != l[p];
      assert SameKeys(d[x], d'[x]);
    }
    EntriesFrame(d, d', l[..p]);
    EntriesFrame(d, d', l[p + 1..]);
  }

  lemma {:induction false} EntriesOfTwo(d: Disk, a: seq<Lba>, x: Lba, y: Lba, b: seq<Lba>)
    ensures Entries(d, a + [x] + [y] + b) == Entries(d, a) + (EntriesAt(d, x) + EntriesAt(d, y)) + Entries(d, b)
  {
    var n := [y] + b;
    var m := [x] + n;
    assert Entries(d, m) == EntriesAt(d, x) + (EntriesAt(d, y) + Entries(d, b)) by {
      assert m[1..] == n && n[1..] == b;
    }
    EntriesConcat(d, a, m);
    assert a + [x] + [y] + b == a + m;
    hide Entries;
    assert Entries(d, a + m) == Entries(d, a) + (EntriesAt(d, x) + EntriesAt(d, y)) + Entries(d, b);
  }

  lemma {:induction false} SplitEntries(d: Disk, d': Disk, l: seq<Lba>, l': seq<Lba>, p: nat, a: Node, fresh_: Lba,
                                        b: Node)
    requires Distinct(l) && OnDisk(d, l) && p < |l| && a.Index? && b.Index?
    requires SplitDisk(d, d', l[p], a, fresh_, b) && InsertedAfter(l, l', p, fresh_)
    ensures Entries(d', l') == Entries(d, l[..p]) + (a.entries + b.entries) + Entries(d, l[p + 1..])
  {
    SplitAround(d, d', l, l', p, a, fresh_, b);
    EntriesOfTwo(d', l[..p], l[p], fresh_, l[p + 1..]);
  }

  /** Placing e inside the middle part places it in the whole. */
  lemma {:induction false} PlacedInLevel(x: seq<Extent>, recs: seq<Extent>, all: seq<Extent>, y: seq<Extent>, g: nat,
                                         w: nat, e: Extent)
    requires Placed(recs, all, g, w, e)
    ensures Placed(x + recs + y, x + all + y, |x| + g, w, e)
  {
    var s, t := x + recs + y, x + all + y;
    forall i | 0 <= i < |t|
      ensures i < |x| + g ==> t[i] == s[i]
      ensures i > |x| + g ==> t[i] == s[i - 1 + w]
    {
      if |x| <= i < |x| + |all| {
        assert t[i] == all[i - |x|];
      }
    }
  }

}
