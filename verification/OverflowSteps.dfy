/** The steps of an insert, as transitions between skeletons: filling or splitting the leaf of the route, then
    settling the pending split in the parent, which may split in turn. */
module OverflowSteps {
  import opened OverflowNodes
  import opened OverflowShape
  import opened OverflowSearch
  import opened OverflowInsert

  // ----- the leaf

  lemma {:induction false} SingleLeaf(lba: Lba, e: Extent, c: Caps)
    requires CapsOk(c) && lba != 0
    ensures var d := map[lba := Leaf(0, 0, [e])]; Bare(d, [[lba]], lba, c) && |d| == 1
  {
    var d: Disk := map[lba := Leaf(0, 0, [e])];
    var levels := [[lba]];
    assert levels[0] == [lba];
    assert LevelAt(d, levels, 0, c);
    assert d.Keys == {lba};
  }

  /** Rewriting the records of a leaf within its capacity. */
  lemma {:induction false} FilledTree(d: Disk, d': Disk, levels: seq<seq<Lba>>, root: Lba, c: Caps, p: nat,
                                      all: seq<Extent>)
    requires Bare(d, levels, root, c) && p < |levels[0]| && levels[0][p] in d && d[levels[0][p]].Leaf?
    requires |all| <= c.leaf
    requires d' == d[levels[0][p] := d[levels[0][p]].(recs := all)]
    ensures Bare(d', levels, root, c) && d'.Keys == d.Keys && |d'| == |d|
  {
    HeightOf(d, levels, c, 0, 0, p);
    NodeWritten(d, d', levels, c, 0, p, d[levels[0][p]].(recs := all));
    assert d'.Keys == d.Keys;
  }

  /** The two halves of a full leaf after the record was added. */
  ghost predicate LeafHalves(d: Disk, x: Lba, all: seq<Extent>, fresh_: Lba, a: Node, b: Node) {
    && x in d && |all| >= 2
    && a == Leaf(d[x].left, fresh_, all[..|all| / 2])
    && b == Leaf(x, d[x].right, all[|all| / 2..])
  }

  /** Splitting the full leaf of the route. */
  lemma {:induction false} DividedTree(d: Disk, d': Disk, levels: seq<seq<Lba>>, levels': seq<seq<Lba>>, root: Lba,
                                       c: Caps, all: seq<Extent>, a: Node, fresh_: Lba, b: Node, pos: seq<nat>,
                                       path: seq<PathStep>)
    requires CapsOk(c) && Bare(d, levels, root, c) && Route(d, levels, 0, pos, path) && pos[0] < |levels[0]|
    requires var x := levels[0][pos[0]];
      && x in d && d[x].Leaf? && |all| == c.leaf + 1
      && LeafHalves(d, x, all, fresh_, a, b) && SplitDisk(d, d', x, a, fresh_, b)
    requires levels' == levels[0 := levels[0][..pos[0] + 1] + [fresh_] + levels[0][pos[0] + 1..]]
    ensures TreeBut(d', levels', c, 1) && Route(d', levels', 0, pos, path)
    ensures levels'[0][pos[0]] == levels[0][pos[0]] && levels'[0][pos[0] + 1] == fresh_
    ensures |levels'[0]| == |levels[0]| + 1
    ensures 1 < |levels| ==> levels'[|levels| - 1] == [root] && Pending(Entries(d', levels'[1]), levels'[0], pos[0])
    ensures 1 == |levels| ==> |levels'[0]| == 2
  {
    hide Entries, SplitDisk, Pending;
    InsertedConcat(levels[0], pos[0], fresh_);
    NodeSplit(d, d', levels, levels', c, 0, pos[0], a, fresh_, b);
    SplitElsewhere(d, d', levels, c, 0, pos[0], a, fresh_, b);
    RouteAbove(d, d', levels, levels', 0, pos, path);
  }

  lemma {:induction false} InsertedConcat<T>(l: seq<T>, p: nat, x: T)
    requires p < |l|
    ensures InsertedAfter(l, l[..p + 1] + [x] + l[p + 1..], p, x)
  {
  }

  /** The right neighbour of a node is another node of its level, or none. */
  lemma {:induction false} RightNeighbour(d: Disk, levels: seq<seq<Lba>>, c: Caps, skip: nat, h: nat, p: nat)
    requires TreeBut(d, levels, c, skip) && h < |levels| && p < |levels[h]|
    ensures levels[h][p] in d && d[levels[h][p]].right != levels[h][p]
    ensures d[levels[h][p]].right != 0 ==> d[levels[h][p]].right in d
  {
    assert LevelAt(d, levels, h, c);
    assert LinkedAt(d, levels[h], p);
  }

  /** A route down to height h is one down to height h + 1. */
  lemma {:induction false} RouteUp(d: Disk, levels: seq<seq<Lba>>, h: nat, pos: seq<nat>, path: seq<PathStep>)
    requires Route(d, levels, h, pos, path) && h + 1 < |levels|
    ensures Route(d, levels, h + 1, pos, path)
  {
    forall g | h + 1 < g < |levels| ensures RouteAt(d, levels, g, pos, path) {
    }
  }

  // ----- the parent of a split node

  /** The entries that describe the two halves of node pos[h] of height h. */
  ghost predicate HalvesOf(levels: seq<seq<Lba>>, h: nat, pos: seq<nat>, left: Entry, push: Entry) {
    && h < |levels| && h < |pos| && pos[h] + 1 < |levels[h]|
    && left.child == levels[h][pos[h]] && push.child == levels[h][pos[h] + 1]
  }

  /** A pending split below node p of height g, whose slot s follows the split node. */
  ghost predicate ParentPending(d: Disk, levels: seq<seq<Lba>>, c: Caps, g: nat, p: nat, s: nat) {
    && CapsOk(c) && 1 <= g < |levels| && TreeBut(d, levels, c, g)
    && p < |levels[g]| && s < |EntriesAt(d, levels[g][p])|
    && Pending(Entries(d, levels[g]), levels[g - 1], Start(d, levels[g], p) + s)
  }

  /** The two entries point at the halves below slot s of node p of height g. */
  ghost predicate PointAtHalves(d: Disk, levels: seq<seq<Lba>>, g: nat, p: nat, s: nat, left: Entry, push: Entry) {
    && 1 <= g < |levels| && p < |levels[g]|
    && var q := Start(d, levels[g], p) + s;
    && q + 1 < |levels[g - 1]| && left.child == levels[g - 1][q] && push.child == levels[g - 1][q + 1]
  }

  /** The parent named by the recorded path. */
  lemma {:induction false} PendingParent(d: Disk, levels: seq<seq<Lba>>, c: Caps, h: nat, pos: seq<nat>,
                                         path: seq<PathStep>, left: Entry, push: Entry)
    requires CapsOk(c) && h + 1 < |levels| && TreeBut(d, levels, c, h + 1) && Route(d, levels, h, pos, path)
    requires Pending(Entries(d, levels[h + 1]), levels[h], pos[h]) && HalvesOf(levels, h, pos, left, push)
    ensures |path| > |levels| - 2 - h
    ensures var step := path[|levels| - 2 - h];
      && pos[h + 1] < |levels[h + 1]| && step.lba == levels[h + 1][pos[h + 1]] && step.lba in d
      && d[step.lba].Index? && d[step.lba].level == h + 1
      && |d[step.lba].entries| <= c.index && step.slot < |d[step.lba].entries|
      && d[step.lba].entries[step.slot].child == left.child
      && ParentPending(d, levels, c, h + 1, pos[h + 1], step.slot)
      && PointAtHalves(d, levels, h + 1, pos[h + 1], step.slot, left, push)
  {
    var g, p := h + 1, pos[h + 1];
    assert RouteAt(d, levels, g, pos, path);
    var step := path[|levels| - 2 - h];
    HeightOf(d, levels, c, g, g, p);
    EntryAt(d, levels[g], p, step.slot);
    assert Shift(pos[h], pos[h]) == pos[h];
  }

  /** The refreshed and extended entries describe the level below again. */
  lemma {:induction false} ParentLinks(d: Disk, levels: seq<seq<Lba>>, c: Caps, g: nat, p: nat, s: nat, left: Entry,
                                       push: Entry)
    requires ParentPending(d, levels, c, g, p, s) && PointAtHalves(d, levels, g, p, s, left, push)
    ensures var all := Combined(EntriesAt(d, levels[g][p]), s, left, push);
      && |all| == |EntriesAt(d, levels[g][p])| + 1
      && PointAt(Entries(d, levels[g][..p]) + all + Entries(d, levels[g][p + 1..]), levels[g - 1])
  {
    hide TreeBut, Pending, PointAt;
    var l := levels[g];
    EntriesAround(d, l, p);
    var x, es, y := Entries(d, l[..p]), EntriesAt(d, l[p]), Entries(d, l[p + 1..]);
    SettlePending(x + es + y, levels[g - 1], |x| + s, left, push);
    CombinedInLevel(x, es, y, s, left, push);
  }

  lemma {:induction false} CombinedInLevel(x: seq<Entry>, es: seq<Entry>, y: seq<Entry>, s: nat, left: Entry,
                                           push: Entry)
    requires s < |es|
    ensures Combined(x + es + y, |x| + s, left, push) == x + Combined(es, s, left, push) + y
  {
    var a, b := Combined(x + es + y, |x| + s, left, push), x + Combined(es, s, left, push) + y;
    CombinedIndex(x + es + y, |x| + s, left, push);
    CombinedIndex(es, s, left, push);
    forall i | 0 <= i < |a| ensures a[i] == b[i] {
      if |x| <= i < |x| + |es| + 1 {
        assert b[i] == Combined(es, s, left, push)[i - |x|];
      }
    }
  }

  /** Parent with room: the skeleton is whole again. */
  lemma {:induction false} ParentFilled(d: Disk, d': Disk, levels: seq<seq<Lba>>, c: Caps, g: nat, p: nat, s: nat,
                                        left: Entry, push: Entry, n: Node)
    requires ParentPending(d, levels, c, g, p, s) && PointAtHalves(d, levels, g, p, s, left, push)
    requires levels[g][p] in d && d[levels[g][p]].Index? && d' == d[levels[g][p] := n]
    requires n == d[levels[g][p]].(entries := Combined(EntriesAt(d, levels[g][p]), s, left, push))
    requires |n.entries| <= c.index
    ensures TreeBut(d', levels, c, 0)
  {
    hide Entries, Pending, PointAt, PointAtHalves, Combined;
    ParentLinks(d, levels, c, g, p, s, left, push);
    HeightOf(d, levels, c, g, g, p);
    assert LevelAt(d, levels, g, c);
    WrittenEntries(d, d', levels[g], p, n);
    assert LinkAt(d', levels, g);
    NodeWritten(d, d', levels, c, g, p, n);
  }

  /** The two halves of a full index node. */
  ghost predicate IndexHalves(d: Disk, x: Lba, all: seq<Entry>, fresh_: Lba, a: Node, b: Node) {
    && x in d && |all| >= 2
    && a == Index(Level(d[x]), d[x].left, fresh_, all[..|all| / 2])
    && b == Index(Level(d[x]), x, d[x].right, all[|all| / 2..])
  }

  /** The two halves together describe the level below. */
  lemma {:induction false} DividedLinks(d: Disk, d': Disk, levels: seq<seq<Lba>>, levels': seq<seq<Lba>>, c: Caps,
                                        g: nat, p: nat, all: seq<Entry>, a: Node, fresh_: Lba, b: Node)
    requires 1 <= g && TreeBut(d, levels, c, g) && SplitAt(d, d', levels, levels', g, p, a, fresh_, b)
    requires IndexHalves(d, levels[g][p], all, fresh_, a, b)
    requires PointAt(Entries(d, levels[g][..p]) + all + Entries(d, levels[g][p + 1..]), levels[g - 1])
    ensures LinkAt(d', levels', g)
  {
    hide Entries, PointAt;
    assert LevelAt(d, levels, g, c);
    SplitEntries(d, d', levels[g], levels'[g], p, a, fresh_, b);
    assert a.entries + b.entries == all;
  }

  /** Full parent: it splits, and the split is pending one level up. */
  lemma {:induction false} DividedParent(d: Disk, d': Disk, levels: seq<seq<Lba>>, levels': seq<seq<Lba>>, c: Caps,
                                         g: nat, s: nat, left: Entry, push: Entry, all: seq<Entry>, a: Node,
                                         fresh_: Lba, b: Node, pos: seq<nat>, path: seq<PathStep>)
    requires 1 <= g < |levels| && Route(d, levels, g - 1, pos, path)
    requires ParentPending(d, levels, c, g, pos[g], s) && PointAtHalves(d, levels, g, pos[g], s, left, push)
    requires |all| == c.index + 1 && all == Combined(EntriesAt(d, levels[g][pos[g]]), s, left, push)
    requires IndexHalves(d, levels[g][pos[g]], all, fresh_, a, b) && SplitDisk(d, d', levels[g][pos[g]], a, fresh_, b)
    requires levels' == levels[g := levels[g][..pos[g] + 1] + [fresh_] + levels[g][pos[g] + 1..]]
    ensures TreeBut(d', levels', c, g + 1) && Route(d', levels', g, pos, path)
    ensures levels'[g][pos[g]] == levels[g][pos[g]] && levels'[g][pos[g] + 1] == fresh_
    ensures |levels'[g]| == |levels[g]| + 1
    ensures g + 1 < |levels| ==>
      levels'[|levels| - 1] == levels[|levels| - 1] && Pending(Entries(d', levels'[g + 1]), levels'[g], pos[g])
  {
    hide Entries, Pending, PointAt, PointAtHalves, Combined, SplitDisk;
    InsertedConcat(levels[g], pos[g], fresh_);
    ParentLinks(d, levels, c, g, pos[g], s, left, push);
    HeightOf(d, levels, c, g, g, pos[g]);
    SplitElsewhere(d, d', levels, c, g, pos[g], a, fresh_, b);
    DividedLinks(d, d', levels, levels', c, g, pos[g], all, a, fresh_, b);
    NodeSplit(d, d', levels, levels', c, g, pos[g], a, fresh_, b);
    RouteUp(d, levels, g - 1, pos, path);
    RouteAbove(d, d', levels, levels', g, pos, path);
  }

  // ----- root growth

  lemma {:induction false} HalfHeight(d: Disk, levels: seq<seq<Lba>>, c: Caps, skip: nat, h: nat, pos: seq<nat>,
                                      left: Entry, push: Entry)
    requires TreeBut(d, levels, c, skip) && HalvesOf(levels, h, pos, left, push)
    ensures left.child in d && Level(d[left.child]) == h
  {
    HeightOf(d, levels, c, skip, h, pos[h]);
  }

  /** A new root above the two halves of the old one. */
  lemma {:induction false} RootGrown(d: Disk, d': Disk, levels: seq<seq<Lba>>, c: Caps, pos: seq<nat>, left: Entry,
                                     push: Entry, fresh_: Lba, n: Node)
    requires CapsOk(c) && TreeBut(d, levels, c, |levels|) && |levels[|levels| - 1]| == 2
    requires HalvesOf(levels, |levels| - 1, pos, left, push)
    requires fresh_ !in d && fresh_ != 0 && d' == d[fresh_ := n] && n == Index(|levels|, 0, 0, [left, push])
    ensures Bare(d', levels + [[fresh_]], fresh_, c) && d'.Keys == d.Keys + {fresh_} && |d'| == |d| + 1
  {
    assert d'.Keys == d.Keys + {fresh_};
    var levels', t := levels + [[fresh_]], |levels|;
    RootElsewhere(d, d', levels, c, fresh_, n);
    forall g | 0 <= g < t ensures LevelAt(d', levels', g, c) {
      ElsewhereLevel(d, d', levels, levels, c, t, t, g);
      assert levels'[g] == levels[g];
    }
    assert LevelAt(d', levels', t, c);
    RootLinks(d, d', levels, c, pos, left, push, fresh_, n);
    forall x | x in d' ensures Level(d'[x]) < |levels'| && x in levels'[Level(d'[x])] {
    }
  }

  lemma {:induction false} RootElsewhere(d: Disk, d': Disk, levels: seq<seq<Lba>>, c: Caps, fresh_: Lba, n: Node)
    requires TreeBut(d, levels, c, |levels|) && fresh_ !in d && d' == d[fresh_ := n]
    ensures SameElsewhere(d, d', levels, |levels|)
  {
    forall g, i | 0 <= g < |levels| && 0 <= i < |levels[g]|
      ensures levels[g][i] in d && levels[g][i] in d' && d'[levels[g][i]] == d[levels[g][i]]
    {
      HeightOf(d, levels, c, |levels|, g, i);
    }
  }

  lemma {:induction false} RootLinks(d: Disk, d': Disk, levels: seq<seq<Lba>>, c: Caps, pos: seq<nat>, left: Entry,
                                     push: Entry, fresh_: Lba, n: Node)
    requires TreeBut(d, levels, c, |levels|) && |levels[|levels| - 1]| == 2
    requires HalvesOf(levels, |levels| - 1, pos, left, push) && SameElsewhere(d, d', levels, |levels|)
    requires fresh_ in d' && d'[fresh_] == n && n == Index(|levels|, 0, 0, [left, push])
    ensures forall g | 1 <= g <= |levels| :: LinkAt(d', levels + [[fresh_]], g)
  {
    var levels', t := levels + [[fresh_]], |levels|;
    forall g | 1 <= g <= t ensures LinkAt(d', levels', g) {
      if g == t {
        assert [fresh_][1..] == [] && Entries(d', [fresh_]) == n.entries + [];
      } else {
        assert LinkAt(d, levels, g);
        ElsewhereLink(d, d', levels, levels, t, g);
        assert levels'[g] == levels[g] && levels'[g - 1] == levels[g - 1];
      }
    }
  }
}
