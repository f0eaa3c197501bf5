/** The overflow-extent B+Tree: insertion with leaf and index splits, lookups, scans and clears, on every tree that
    these operations give. */
module OverflowTree {
  import opened OverflowNodes
  import opened OverflowShape
  import opened OverflowOrder
  import opened OverflowSearch
  import opened OverflowInsert
  import opened OverflowSteps
  import opened OverflowScan
  import opened OverflowCommute
  import opened OverflowDescent
  import Blocks
  import OverflowValues
  import OverflowRuns
  import OverflowAbstract
  import OverflowTight
  import OverflowFill
  import OverflowLayer
  import Extents
  import FileRead

  datatype Status = Ok | Inval | NoSpace

  /** OVERFLOW_BTREE_MAX_DEPTH: longest path of index nodes an insert can record. */
  const MAX_DEPTH := 8

  class Tree {
    const caps: Caps
    var root: Lba
    var totalNodes: nat
    var disk: Disk
    /** LBAs the node allocator will hand out, in this order. */
    var supply: seq<Lba>
    /** The LBAs of each height, left to right; empty for the empty tree. */
    ghost var levels: seq<seq<Lba>>

    ghost predicate Bookkeeping()
      reads this
    {
      && CapsOk(caps)
      && totalNodes == |disk|
      && SupplyOk(disk, supply)
      && (levels == [] ==> root == 0 && disk == map[])
      && (levels != [] ==> root != 0)
    }

    /** The tree as a value, without addresses and links. */
    ghost function Value(): OverflowValues.Tree
      reads this
    {
      if levels == [] then OverflowValues.Tip([]) else OverflowAbstract.TreeAt(disk, root, |levels| - 1)
    }

    /** The nodes on disk form a tree: chained levels, children in order, counters right. */
    ghost predicate Whole()
      reads this
    {
      Bookkeeping() && (levels != [] ==> Bare(disk, levels, root, caps))
    }

    /** A tree in which every descent ends at the right leaf: whatever inserts and clears led to it, every separator
        that is compared separates the records of its node. */
    ghost predicate Searchable()
      reads this
    {
      Whole() && OverflowValues.Strict(Value())
    }

    /** A tree built by inserts alone. */
    ghost predicate InsertOnly()
      reads this
    {
      Bookkeeping() && (levels != [] ==> Exact(disk, levels, root, caps))
    }

    /** The records of the leaf chain, left to right. */
    ghost function Contents(): seq<Extent>
      reads this
    {
      if levels == [] then [] else Recs(disk, levels[0])
    }

    ghost function Model(): map<Key, Extent>
      requires Searchable()
      reads this
    {
      InOrder();
      AsMap(Contents())
    }

    /** The leaf chain holds the records of the value, in order. */
    lemma {:induction false} InOrder()
      requires Searchable()
      ensures Contents() == OverflowValues.Records(Value()) && SortedRecs(Contents())
    {
      if levels != [] {
        OverflowAbstract.SameRecords(disk, levels, root, caps);
      }
      OverflowValues.StrictSorted(Value());
    }

    lemma {:induction false} SameContents()
      requires Whole()
      ensures Contents() == OverflowValues.Records(Value())
    {
      if levels != [] {
        OverflowAbstract.SameRecords(disk, levels, root, caps);
      }
    }

    lemma {:induction false} CanWalk()
      requires Searchable() && levels != []
      ensures Walkable(disk, levels, caps)
    {
      InOrder();
      assert LevelAt(disk, levels, 0, caps);
    }

    lemma {:induction false} InsertOnlyIsSearchable()
      requires InsertOnly()
      ensures Searchable() && (levels != [] ==> OverflowTight.Tight(Value(), true))
    {
      if levels != [] {
        ShapeIsBare(disk, levels, root, caps);
        OverflowAbstract.ExactIsStrict(disk, levels, root, caps);
        OverflowTight.ExactIsTight(disk, levels, root, caps);
      }
    }

    constructor (c: Caps, lbas: seq<Lba>)
      requires CapsOk(c) && Distinct(lbas) && 0 !in lbas
      ensures InsertOnly() && Searchable() && HalfFull() && Model() == map[] && Value() == OverflowValues.Tip([])
      ensures caps == c && supply == lbas
    {
      caps, root, totalNodes, disk, supply, levels := c, 0, 0, map[], lbas, [];
    }

    method AllocNode() returns (st: Status, lba: Lba)
      requires SupplyOk(disk, supply)
      modifies this`supply
      ensures st == NoSpace || st == Ok
      ensures st == NoSpace ==> old(supply) == [] && supply == []
      ensures st == Ok ==> old(supply) == [lba] + supply && lba !in disk && lba != 0 && lba !in supply
      ensures SupplyOk(disk, supply)
    {
      if supply == [] {
        return NoSpace, 0;
      }
      lba := supply[0];
      supply := supply[1..];
      st := Ok;
    }

    /** The descent ended at a leaf of the tree, by the recorded path. */
    ghost predicate Descended(lba: Lba, pos: seq<nat>, path: seq<PathStep>, k: Key)
      reads this
    {
      && Whole() && levels != [] && Started(disk, levels, root, caps, pos, path, k) && lba == levels[0][pos[0]]
      && lba in disk && disk[lba].Leaf? && SortedRecs(disk[lba].recs)
    }

    /** The descent of an insert: from the root to the leaf that the key belongs to, recording the path. */
    method Descend(k: Key) returns (st: Status, path: seq<PathStep>, lba: Lba, ghost pos: seq<nat>)
      requires Searchable() && root != 0
      ensures st == if |levels| > MAX_DEPTH + 1 then Inval else Ok
      ensures st == Ok ==> Descended(lba, pos, path, k)
    {
      hide Bare, Entries, Start, OverflowValues.Strict, OverflowAbstract.TreeAt, SupplyOk;
      path, lba, st := [], root, Ok;
      ghost var h: nat := |levels| - 1;
      pos := seq(|levels|, _ => 0);
      RootNode(disk, levels, root, caps);
      while lba in disk && disk[lba].Index?
        invariant h < |levels| == |pos| && Route(disk, levels, h, pos, path) && pos[h] < |levels[h]|
        invariant lba == levels[h][pos[h]] && OverflowValues.Strict(OverflowAbstract.TreeAt(disk, lba, h))
        invariant |path| == |levels| - 1 - h <= MAX_DEPTH && Chosen(disk, path, k)
        decreases h
      {
        SearchNode(disk, levels, root, caps, h, pos[h]);
        if |path| >= MAX_DEPTH {
          return Inval, path, lba, pos;
        }
        var slot := IndexFind(disk[lba].entries, k);
        StepDown(disk, levels, root, caps, h, pos[h], slot);
        ghost var pos' := pos[h - 1 := Start(disk, levels[h], pos[h]) + slot];
        var step := PathStep(lba, slot);
        ExtendRoute(disk, levels, h, pos, pos', path, step);
        path := path + [step];
        lba := disk[lba].entries[slot].child;
        pos, h := pos', h - 1;
      }
      SearchNode(disk, levels, root, caps, h, pos[h]);
    }

    /** First record: a single leaf becomes the root. */
    method InsertFirst(e: Extent) returns (st: Status)
      requires Whole() && root == 0
      modifies this
      ensures st == Ok || (st == NoSpace && old(supply) == [])
      ensures st == Ok ==> Whole() && levels != []
      ensures st == Ok ==> Value() == OverflowValues.Insert(OverflowValues.Tip([]), e, caps)
    {
      var lba;
      st, lba := AllocNode();
      if st != Ok {
        return;
      }
      disk := map[lba := Leaf(0, 0, [e])];
      root := lba;
      totalNodes := 1;
      levels := [[lba]];
      SingleLeaf(lba, e, caps);
      FirstValue(e, lba, caps);
    }

    /** Writes the record over its own key (w == 1) or into a free slot (w == 0) of the leaf of the route. */
    method WriteLeaf(lba: Lba, ghost pos: seq<nat>, ghost path: seq<PathStep>, at: nat, w: nat, e: Extent)
      requires Descended(lba, pos, path, e.key) && |disk[lba].recs| <= caps.leaf
      requires PlaceFor(disk[lba].recs, at, w, e.key) && (w == 1 || |disk[lba].recs| < caps.leaf)
      modifies this`disk
      ensures Whole() && Value() == OverflowValues.Insert(old(Value()), e, caps)
    {
      hide Bare, OverflowAbstract.TreeAt, OverflowValues.Insert, Started, PlaceFor, SupplyOk, SortedRecs;
      ghost var d, o := disk, Origin(disk, levels, root, e);
      LeafWritten(o, lba, caps, pos, path, at, w);
      var recs := disk[lba].recs;
      var all := recs[..at] + [e] + recs[at + w..];
      disk := disk[lba := disk[lba].(recs := all)];
      SameSupply(d, disk, supply);
    }

    /** The state in the middle of a split: node pos[h] of height h has become two, and the path above
        still leads to it. */
    ghost predicate Splitting(h: nat, pos: seq<nat>, path: seq<PathStep>)
      reads this
    {
      && CapsOk(caps) && totalNodes == |disk| && SupplyOk(disk, supply)
      && root != 0 && h < |levels| == |pos| && TreeBut(disk, levels, caps, h + 1)
      && Route(disk, levels, h, pos, path) && |path| == |levels| - 1
      && pos[h] + 1 < |levels[h]|
      && (h + 1 < |levels| ==> levels[|levels| - 1] == [root])
      && (h + 1 < |levels| ==> Pending(Entries(disk, levels[h + 1]), levels[h], pos[h]))
      && (h + 1 == |levels| ==> |levels[h]| == 2)
    }

    /** Overwrites the node at lba with its left half, writes the right half at a new LBA and relinks
        the old right neighbour. */
    method WriteHalves(lba: Lba, a: Node, fresh_: Lba, b: Node)
      requires lba in disk && fresh_ !in disk && fresh_ != 0
      requires a.left == disk[lba].left && a.right == fresh_ && b.left == lba && b.right == disk[lba].right
      requires b.right != lba
      requires b.right != 0 ==> b.right in disk
      modifies this`disk, this`totalNodes
      ensures SplitDisk(old(disk), disk, lba, a, fresh_, b)
      ensures SupplyOk(old(disk), supply) && fresh_ !in supply ==> SupplyOk(disk, supply)
      ensures totalNodes == old(totalNodes) + 1 && |disk| == |old(disk)| + 1
    {
      ghost var d := disk;
      disk := disk[lba := a];
      disk := disk[fresh_ := b];
      totalNodes := totalNodes + 1;
      assert disk.Keys == d.Keys + {fresh_};
      if b.right != 0 {
        disk := disk[b.right := disk[b.right].(left := fresh_)];
        assert disk.Keys == d.Keys + {fresh_};
      }
    }

    /** Splits the full leaf of the route around the new record. */
    method SplitLeaf(lba: Lba, ghost pos: seq<nat>, ghost path: seq<PathStep>, at: nat, e: Extent)
      returns (st: Status, left: Entry, push: Entry)
      requires Descended(lba, pos, path, e.key) && |disk[lba].recs| == caps.leaf
      requires PlaceFor(disk[lba].recs, at, 0, e.key)
      modifies this
      ensures st == Ok || (st == NoSpace && old(supply) == [])
      ensures st == Ok ==> root == old(root) && Splitting(0, pos, path) && HalvesOf(levels, 0, pos, left, push)
      ensures st == Ok ==> Going(Origin(old(disk), old(levels), root, e), disk, levels, caps, 0, pos, path, left, push)
      ensures st == Ok ==> |levels| == |old(levels)| && |supply| + 1 == |old(supply)|
    {
      hide Bare, TreeBut, SplitDisk, Pending, Entries, SupplyOk, Going, Started, Route, SortedRecs, PlaceFor, HalvesOf,
           OverflowAbstract.TreeAt;
      SplitReady(disk, levels, root, caps, pos, path, e, at);
      var fresh_;
      left, push := Entry(e.key, lba), Entry(e.key, lba);
      st, fresh_ := AllocNode();
      if st != Ok {
        return;
      }
      var recs := disk[lba].recs;
      var all := recs[..at] + [e] + recs[at..];
      var leftCount := |all| / 2;
      var a := Leaf(disk[lba].left, fresh_, all[..leftCount]);
      var b := Leaf(lba, disk[lba].right, all[leftCount..]);
      ghost var d, l, p := disk, levels, pos[0];
      WriteHalves(lba, a, fresh_, b);
      levels := levels[0 := l[0][..p + 1] + [fresh_] + l[0][p + 1..]];
      SplitStep(d, disk, l, levels, root, caps, pos, path, e, at, all, a, fresh_, b);
      left := Entry(all[0].key, lba);
      push := Entry(all[leftCount].key, fresh_);
    }

    /** Propagates a split upward through the recorded path, up to a new root. */
    method Propagate(left0: Entry, push0: Entry, ghost pos: seq<nat>, path: seq<PathStep>, ghost o: Origin)
      returns (st: Status)
      requires Splitting(0, pos, path) && HalvesOf(levels, 0, pos, left0, push0)
      requires root == o.root && Going(o, disk, levels, caps, 0, pos, path, left0, push0)
      modifies this
      ensures st == Ok || (st == NoSpace && |old(supply)| < |old(levels)|)
      ensures st == Ok ==> Whole() && levels != [] && o.levels != [] && Value() == Goal(o, caps)
    {
      hide TreeBut, Entries, Pending, Route, SupplyOk, HalvesOf, Started, Staged, Goal;
      var left, push, depth := left0, push0, |path|;
      ghost var h: nat := 0;
      while depth > 0
        invariant depth == |levels| - 1 - h
        invariant |levels| == |old(levels)| && |supply| + h == |old(supply)|
        invariant Splitting(h, pos, path) && HalvesOf(levels, h, pos, left, push)
        invariant root == o.root && Going(o, disk, levels, caps, h, pos, path, left, push)
        decreases depth
      {
        depth := depth - 1;
        var done;
        st, done, left, push := SettleParent(path[depth], left, push, h, pos, path, o);
        if done || st != Ok {
          return;
        }
        h := h + 1;
      }
      st := GrowRoot(left, push, h, pos, path, o);
    }

    /** One round of propagation: the parent takes the new entry, or splits in turn. */
    method SettleParent(step: PathStep, left: Entry, push: Entry, ghost h: nat, ghost pos: seq<nat>,
                        path: seq<PathStep>, ghost o: Origin)
      returns (st: Status, done: bool, left': Entry, push': Entry)
      requires Splitting(h, pos, path) && HalvesOf(levels, h, pos, left, push)
      requires h + 1 < |levels| && step == path[|levels| - 2 - h]
      requires root == o.root && Going(o, disk, levels, caps, h, pos, path, left, push)
      modifies this
      ensures st == Ok || (st == NoSpace && old(supply) == [])
      ensures st == Ok && done ==> Whole() && levels != [] && o.levels != [] && Value() == Goal(o, caps)
      ensures st == Ok && !done ==> root == o.root && Going(o, disk, levels, caps, h + 1, pos, path, left', push')
      ensures st == Ok && !done ==> Splitting(h + 1, pos, path) && HalvesOf(levels, h + 1, pos, left', push')
      ensures st == Ok && !done ==> |levels| == |old(levels)| && |supply| + 1 == |old(supply)|
    {
      hide TreeBut, SplitDisk, Pending, HalvesOf, Entries, SupplyOk, ParentPending, PointAtHalves, Route, Started,
           Staged,
           Goal, Combined;
      left', push', done := left, push, false;
      ghost var d, l := disk, levels;
      PendingParent(disk, levels, caps, h, pos, path, left, push);
      var parent, s := disk[step.lba], step.slot;
      var es := parent.entries[s := Entry(left.key, parent.entries[s].child)];
      var all := es[..s + 1] + [push] + es[s + 1..];
      TakesBoth(parent.entries, s, left, push);
      if |parent.entries| < caps.index {
        FillParent(step, all, left, push, h, pos);
        FilledValue(o, d, disk, l, caps, h, pos, path, left, push, step.lba, s);
        return Ok, true, left, push;
      }
      st, left', push' := DivideParent(step, all, left, push, h, pos, path);
      if st == Ok {
        DividedValue(o, d, disk, l, levels, caps, h, pos, path, left, push, step.lba, s, all, push'.child);
      }
    }

    /** Parent with room: it takes the new entry and the insert is complete. */
    method FillParent(step: PathStep, all: seq<Entry>, left: Entry, push: Entry, ghost h: nat, ghost pos: seq<nat>)
      requires Bookkeeping() && h + 1 < |levels| == |pos| && pos[h + 1] < |levels[h + 1]|
      requires ParentPending(disk, levels, caps, h + 1, pos[h + 1], step.slot) && levels[|levels| - 1] == [root]
      requires PointAtHalves(disk, levels, h + 1, pos[h + 1], step.slot, left, push)
      requires step.lba == levels[h + 1][pos[h + 1]] && step.lba in disk && disk[step.lba].Index?
      requires step.slot < |disk[step.lba].entries| && |all| <= caps.index
      requires all == Combined(disk[step.lba].entries, step.slot, left, push)
      modifies this`disk
      ensures Whole() && disk == old(disk)[step.lba := old(disk)[step.lba].(entries := all)]
    {
      hide TreeBut, Entries, ParentPending, PointAtHalves, Combined, SupplyOk;
      ghost var d := disk;
      disk := disk[step.lba := disk[step.lba].(entries := all)];
      assert disk.Keys == d.Keys;
      ParentFilled(d, disk, levels, caps, h + 1, pos[h + 1], step.slot, left, push, disk[step.lba]);
      SameSupply(d, disk, supply);
    }

    /** Full parent: it splits in turn. */
    method DivideParent(step: PathStep, all: seq<Entry>, left0: Entry, push0: Entry, ghost h: nat, ghost pos: seq<nat>,
                        ghost path: seq<PathStep>)
      returns (st: Status, left: Entry, push: Entry)
      requires Splitting(h, pos, path) && h + 1 < |levels| && pos[h + 1] < |levels[h + 1]|
      requires ParentPending(disk, levels, caps, h + 1, pos[h + 1], step.slot)
      requires PointAtHalves(disk, levels, h + 1, pos[h + 1], step.slot, left0, push0)
      requires step.lba == levels[h + 1][pos[h + 1]] && step.lba in disk && disk[step.lba].Index?
      requires disk[step.lba].level == h + 1 && step.slot < |disk[step.lba].entries| && |all| == caps.index + 1
      requires all == Combined(disk[step.lba].entries, step.slot, left0, push0)
      modifies this
      ensures st == Ok || (st == NoSpace && old(supply) == [])
      ensures st == Ok ==> Splitting(h + 1, pos, path) && HalvesOf(levels, h + 1, pos, left, push)
      ensures st == Ok ==> |levels| == |old(levels)| && |supply| + 1 == |old(supply)|
      ensures st == Ok ==> root == old(root) && forall g | h + 1 < g < |levels| :: levels[g] == old(levels)[g]
      ensures st == Ok ==> left == Entry(all[0].key, step.lba) && push.key == all[|all| / 2].key
      ensures st == Ok ==> var x, y := step.lba, push.child;
        && x in disk && y in disk && IndexHalves(old(disk), x, all, y, disk[x], disk[y])
        && SplitDisk(old(disk), disk, x, disk[x], y, disk[y])
    {
      hide TreeBut, SplitDisk, Pending, Entries, SupplyOk, ParentPending, PointAtHalves, Route, Combined;
      left, push := Entry(all[0].key, step.lba), Entry(all[0].key, step.lba);
      var fresh_;
      st, fresh_ := AllocNode();
      if st != Ok {
        return;
      }
      var il := |all| / 2;
      var parent := disk[step.lba];
      var a := Index(parent.level, parent.left, fresh_, all[..il]);
      var b := Index(parent.level, step.lba, parent.right, all[il..]);
      ghost var d, l, g, p := disk, levels, h + 1, pos[h + 1];
      RightNeighbour(disk, levels, caps, g, g, p);
      WriteHalves(step.lba, a, fresh_, b);
      levels := levels[g := l[g][..p + 1] + [fresh_] + l[g][p + 1..]];
      DividedParent(d, disk, l, levels, caps, g, step.slot, left0, push0, all, a, fresh_, b, pos, path);
      WrittenHalves(d, disk, step.lba, a, fresh_, b);
      push := Entry(all[il].key, fresh_);
    }

    /** Creates the new root above the two halves of the old one. */
    method GrowRoot(left: Entry, push: Entry, ghost h: nat, ghost pos: seq<nat>, path: seq<PathStep>, ghost o: Origin)
      returns (st: Status)
      requires Splitting(h, pos, path) && HalvesOf(levels, h, pos, left, push) && h + 1 == |levels|
      requires Going(o, disk, levels, caps, h, pos, path, left, push)
      modifies this
      ensures st == Ok || (st == NoSpace && old(supply) == [])
      ensures st == Ok ==> Whole() && levels != [] && o.levels != [] && Value() == Goal(o, caps)
    {
      hide TreeBut, Entries, Pending, Route, SupplyOk, HalvesOf, Started, Staged, Goal, Bare, OverflowAbstract.TreeAt;
      var fresh_;
      st, fresh_ := AllocNode();
      if st != Ok {
        return;
      }
      HalfHeight(disk, levels, caps, h + 1, h, pos, left, push);
      var oldLevel := Level(disk[left.child]);
      var n := Index(oldLevel + 1, 0, 0, [left, push]);
      ghost var d, l := disk, levels;
      disk := disk[fresh_ := n];
      root := fresh_;
      totalNodes := totalNodes + 1;
      levels := levels + [[fresh_]];
      RootGrown(d, disk, l, caps, pos, left, push, fresh_, n);
      SupplyShrinks(d, disk, supply, fresh_);
      GrownValue(o, d, disk, l, caps, pos, path, left, push, fresh_);
    }

    /** overflow_insert, on any searchable tree: the leaf chain then holds the updated map, and the tree is what the
        insert on values gives; it is searchable again exactly when every key handed up fits, as in insert-only
        trees, which stay so. Paths longer than can be recorded are refused, and then nothing changes. */
    method Insert(e: Extent) returns (st: Status)
      requires Searchable()
      modifies this
      ensures st == Inval <==> |old(levels)| > 9
      ensures st == Inval ==> Searchable() && unchanged(this)
      ensures st == NoSpace ==> |old(supply)| <= |old(levels)|
      ensures st == Ok ==> Whole() && Value() == OverflowValues.Insert(old(Value()), e, caps)
      ensures st == Ok ==> SortedRecs(Contents()) && AsMap(Contents()) == old(Model())[e.key := e]
      ensures st == Ok ==> (Searchable() <==> OverflowValues.SafePut(old(Value()), e, caps))
      ensures st == Ok && old(InsertOnly()) ==> InsertOnly()
    {
      ghost var exact, v := InsertOnly(), Value();
      InOrder();
      if root == 0 {
        st := InsertFirst(e);
      } else {
        var path, lba;
        ghost var pos;
        if exact {
          InsertOnlyIsSearchable();
        }
        st, path, lba, pos := Descend(e.key);
        if st == Ok {
          st := InsertInto(lba, pos, path, e);
        }
      }
      if st == Ok {
        Inserted(v, e, exact);
      }
    }

    /** What an insert on values says about the tree on disk. */
    lemma {:induction false} Inserted(v: OverflowValues.Tree, e: Extent, exact: bool)
      requires Whole() && levels != [] && OverflowValues.Strict(v) && Value() == OverflowValues.Insert(v, e, caps)
      requires exact ==> v == OverflowValues.Tip([]) || OverflowTight.Tight(v, true)
      ensures SortedRecs(Contents()) && SortedRecs(OverflowValues.Records(v))
      ensures AsMap(Contents()) == AsMap(OverflowValues.Records(v))[e.key := e]
      ensures Searchable() <==> OverflowValues.SafePut(v, e, caps)
      ensures exact ==> InsertOnly()
    {
      SameContents();
      OverflowValues.InsertUpdates(v, e, caps);
      OverflowValues.InsertIff(v, e, caps);
      if exact {
        if v == OverflowValues.Tip([]) {
          OverflowTight.FirstTight(e, caps);
        } else {
          OverflowTight.InsertTight(v, e, caps);
        }
        OverflowTight.TightIsExact(disk, levels, root, caps);
      }
    }

    /** The insert once the leaf is found. */
    method InsertInto(lba: Lba, ghost pos: seq<nat>, path: seq<PathStep>, e: Extent) returns (st: Status)
      requires Descended(lba, pos, path, e.key)
      modifies this
      ensures st == Ok || (st == NoSpace && |old(supply)| <= |old(levels)|)
      ensures st == Ok ==> Whole() && levels != [] && Value() == OverflowValues.Insert(old(Value()), e, caps)
    {
      hide Bare, Started, Chosen, Going, OverflowAbstract.TreeAt, OverflowValues.Insert, Recs, Route, SupplyOk,
           Entries, HalvesOf, Splitting, TreeBut;
      StartedLeaf(disk, levels, root, caps, pos, path, e.key);
      var leaf := disk[lba];
      var idx := LeafFind(leaf.recs, e.key);
      if idx >= 0 {
        WriteLeaf(lba, pos, path, idx, 1, e);
        return Ok;
      }
      var at := -(idx + 1);
      if |leaf.recs| < caps.leaf {
        WriteLeaf(lba, pos, path, at, 0, e);
        return Ok;
      }
      ghost var o := Origin(disk, levels, root, e);
      var left, push;
      st, left, push := SplitLeaf(lba, pos, path, at, e);
      if st != Ok {
        return;
      }
      st := Propagate(left, push, pos, path, o);
    }

    /** Every insert-only run from a valid state: the final contents are the updates applied in order,
        up to the first insert that reports an error. */
    method InsertAll(es: seq<Extent>) returns (st: Status, n: nat)
      requires InsertOnly() && Searchable()
      modifies this
      ensures n <= |es| && (st == Ok ==> n == |es|)
      ensures st != NoSpace ==> InsertOnly() && Searchable() && Model() == Updates(old(Model()), es[..n])
      ensures st != NoSpace && old(HalfFull()) ==> HalfFull()
      ensures old(HalfFull()) && |old(Contents())| + |es| < 2 * OverflowFill.Fewest(caps, 8) ==> st != Inval
    {
      hide Exact, Bare, OverflowValues.Strict, AsMap, Recs, SupplyOk, OverflowValues.SafePut, OverflowValues.Insert,
           OverflowAbstract.TreeAt, OverflowFill.Filled, OverflowValues.Records, OverflowFill.Fewest;
      n, st := 0, Ok;
      while n < |es|
        invariant n <= |es| && InsertOnly() && Searchable() && Model() == Updates(old(Model()), es[..n])
        invariant old(HalfFull()) ==> HalfFull()
        invariant |Contents()| <= |old(Contents())| + n
      {
        assert es[..n + 1][..n] == es[..n];
        SameContents();
        ghost var v := Value();
        st := Insert(es[n]);
        if st != Ok {
          if st == Inval && old(HalfFull()) {
            TallTree();
          }
          return;
        }
        OverflowFill.InsertAddsOne(v, es[n], caps);
        SameContents();
        if old(HalfFull()) {
          OverflowFill.InsertFilled(v, es[n], caps);
        }
        InsertOnlyIsSearchable();
        n := n + 1;
      }
      return Ok, n;
    }

    /** Every node but the root is at least half full. */
    ghost predicate HalfFull()
      reads this
    {
      OverflowFill.Filled(Value(), caps, true)
    }

    /** A half-full tree too tall for another insert holds many records. */
    lemma {:induction false} TallTree()
      requires Whole() && HalfFull() && |levels| > MAX_DEPTH + 1
      ensures |Contents()| >= 2 * OverflowFill.Fewest(caps, 8)
    {
      SameContents();
      OverflowFill.FewestInTree(disk, root, |levels| - 1, caps);
      OverflowFill.FewestGrows(caps, 8, |levels| - 2);
    }

    /** Any run of inserts and clears from the empty tree in which every key handed up fits: the tree holds the map
        that the same run gives, up to the first insert that reports an error. */
    method RunAll(ops: seq<OverflowRuns.Op>) returns (st: Status, n: nat)
      requires Searchable() && Value() == OverflowValues.Tip([]) && OverflowRuns.SafeRun(ops, caps)
      modifies this
      ensures n <= |ops| && (st == Ok ==> n == |ops|) && (st == Inval ==> |levels| > MAX_DEPTH + 1)
      ensures st != NoSpace ==> Searchable() && Value() == OverflowRuns.Run(ops[..n], caps)
      ensures st != NoSpace ==> Model() == OverflowRuns.MapAfter(ops[..n])
    {
      hide Bare, OverflowValues.Strict, AsMap, Recs, SupplyOk, OverflowValues.SafePut, OverflowValues.Insert,
           OverflowAbstract.TreeAt, OverflowRuns.Clear;
      n, st := 0, Ok;
      while n < |ops|
        invariant n <= |ops| && st == Ok && Searchable() && Value() == OverflowRuns.Run(ops[..n], caps)
        decreases |ops| - n
      {
        OverflowRuns.SafePrefix(ops, n, caps);
        assert ops[..n + 1][..n] == ops[..n];
        if ops[n].Add? {
          st := Insert(ops[n].e);
          if st != Ok {
            break;
          }
        } else {
          ClearInode(ops[n].ino);
        }
        n := n + 1;
      }
      assert n == |ops| ==> ops[..n] == ops;
      if st != NoSpace {
        InOrder();
        OverflowRuns.SafeUpTo(ops, n, caps);
        OverflowRuns.RunRefines(ops[..n], caps, Key(0, 0));
      }
    }

    /** The same descent finds every stored key: the record, or nothing when the key is absent. */
    method Lookup(k: Key) returns (st: Status, found: bool, r: Extent)
      requires Searchable()
      ensures st == if |levels| > MAX_DEPTH + 1 then Inval else Ok
      ensures st == Ok ==> (found <==> k in Model())
      ensures st == Ok && found ==> r == Model()[k]
    {
      r, found := Extent(k, 0, 0, 0), false;
      InOrder();
      if root == 0 {
        return Ok, false, r;
      }
      hide Recs, Entries, TreeBut, Bare, Route, SupplyOk, OverflowValues.Strict, OverflowAbstract.TreeAt;
      var path, lba;
      ghost var pos;
      st, path, lba, pos := Descend(k);
      if st != Ok {
        return;
      }
      var recs := disk[lba].recs;
      var idx := LeafFind(recs, k);
      found := idx >= 0;
      r := if found then recs[idx] else r;
      RouteFind(disk, levels, root, caps, pos, path, k);
      OverflowValues.FindExact(Value(), k);
      OverflowValues.GetIsMap(Contents(), k);
      GetInLeaf(recs, k, idx);
    }

    /** The strict-less descent: nothing of the inode lies to the left of the leaf it reaches. */
    method DescendLeft(ino: nat) returns (lba: Lba, ghost p: nat)
      requires Searchable() && root != 0
      ensures p < |levels[0]| && lba == levels[0][p] && InosBelow(Recs(disk, levels[0][..p]), ino)
    {
      hide Bare, Recs, Entries, Start, SupplyOk, InosBelow, OverflowValues.Strict, OverflowAbstract.TreeAt, LeftPart;
      lba := root;
      ghost var h: nat := |levels| - 1;
      p := 0;
      RootNode(disk, levels, root, caps);
      NothingLeft(disk, levels, ino);
      while lba in disk && disk[lba].Index?
        invariant h < |levels| && p < |levels[h]| && lba == levels[h][p]
        invariant OverflowValues.Strict(OverflowAbstract.TreeAt(disk, lba, h))
        invariant InosBelow(LeftPart(disk, levels, h, p), ino)
        decreases h
      {
        SearchNode(disk, levels, root, caps, h, p);
        var slot := IndexFindLeft(disk[lba].entries, ino);
        StepDown(disk, levels, root, caps, h, p, slot);
        LeftDown(disk, levels, root, caps, h, p, ino, slot);
        lba := disk[lba].entries[slot].child;
        p, h := Start(disk, levels[h], p) + slot, h - 1;
      }
      SearchNode(disk, levels, root, caps, h, p);
      LeftLeaves(disk, levels, root, caps, p);
    }

    /** Scans one leaf for the covering record; `past` tells that a larger inode was met at index i. */
    static method ScanLeaf(recs: seq<Extent>, ino: nat, block: nat) returns (found: bool, past: bool, i: nat)
      ensures i <= |recs| && NoneCovers(recs[..i], ino, block)
      ensures found ==> i < |recs| && CoversBlock(recs[i], ino, block)
      ensures past ==> i < |recs| && recs[i].key.ino > ino
      ensures !found && !past ==> i == |recs|
    {
      found, past, i := false, false, 0;
      while i < |recs|
        invariant 0 <= i <= |recs| && NoneCovers(recs[..i], ino, block)
      {
        if recs[i].key.ino > ino {
          return false, true, i;
        }
        if recs[i].key.ino == ino && recs[i].key.off <= block < recs[i].key.off + recs[i].logical {
          return true, false, i;
        }
        i := i + 1;
      }
    }

    /** overflow_find_extent: what the search in the inode's list finds, the first extent that holds the block if any
        does. */
    method FindExtent(ino: nat, block: nat) returns (r: Blocks.Option<Extents.Ext>)
      requires Searchable()
      ensures FileRead.Finds(OverflowLayer.AsExts(OfInode(Contents(), ino)), block, r)
    {
      hide Bare, OverflowValues.Strict, OverflowAbstract.TreeAt, Walkable, Recs, SortedRecs, NoneCovers, FirstToCover,
           SupplyOk, InosBelow, OverflowLayer.AsExts, OfInode, FileRead.Finds;
      if root == 0 {
        NothingCovers(ino, block);
        OverflowLayer.NoneFound([], ino, block);
        return Blocks.None;
      }
      CanWalk();
      ghost var q;
      var lba;
      lba, q := DescendLeft(ino);
      NoneCoversLeft(Recs(disk, levels[0][..q]), ino, block);
      ghost var leaves := levels[0];
      while lba != 0
        invariant 0 <= q <= |leaves| && lba == Neighbour(leaves, q)
        invariant NoneCovers(Recs(disk, leaves[..q]), ino, block)
        decreases |leaves| - q
      {
        ChainNode(disk, levels, caps, q);
        var recs := disk[lba].recs;
        var hit, past, i := ScanLeaf(recs, ino, block);
        ScanStep(disk, levels, caps, q, i, ino, block);
        if hit {
          OverflowLayer.CoverFound(Contents(), |Recs(disk, leaves[..q])| + i, recs[i], ino, block);
          return Blocks.Some(Extents.Ext(recs[i].key.off, recs[i].logical, recs[i].start, recs[i].blocks));
        }
        if past {
          OverflowLayer.NoneFound(Contents(), ino, block);
          return Blocks.None;
        }
        lba := disk[lba].right;
        q := q + 1;
      }
      AllOnDisk(disk, levels, caps, q);
      assert leaves[..q] == leaves;
      OverflowLayer.NoneFound(Contents(), ino, block);
      return Blocks.None;
    }

    /** Collects the inode's records of one leaf. */
    static method CollectLeaf(recs: seq<Extent>, ino: nat) returns (out: seq<Extent>, past: bool, i: nat)
      ensures i <= |recs| && out == OfInode(recs[..i], ino)
      ensures past ==> i < |recs| && recs[i].key.ino > ino
      ensures !past ==> i == |recs|
    {
      out, past, i := [], false, 0;
      while i < |recs|
        invariant 0 <= i <= |recs| && out == OfInode(recs[..i], ino)
      {
        if recs[i].key.ino > ino {
          return out, true, i;
        }
        assert recs[..i + 1][..i] == recs[..i];
        if recs[i].key.ino == ino {
          out := out + [recs[i]];
        }
        i := i + 1;
      }
    }

    /** overflow_collect_extents: exactly the records of the inode, in order. */
    method CollectExtents(ino: nat) returns (out: seq<Extent>)
      requires Searchable()
      ensures out == OfInode(Contents(), ino)
    {
      out := [];
      if root == 0 {
        return;
      }
      hide Bare, OverflowValues.Strict, OverflowAbstract.TreeAt, Walkable, Recs, SortedRecs, OfInode, SupplyOk,
           InosBelow;
      CanWalk();
      ghost var q;
      var lba;
      lba, q := DescendLeft(ino);
      ghost var leaves := levels[0];
      NothingOnTheLeft(Recs(disk, leaves[..q]), ino);
      while lba != 0
        invariant 0 <= q <= |leaves| && lba == Neighbour(leaves, q)
        invariant out == OfInode(Recs(disk, leaves[..q]), ino)
        decreases |leaves| - q
      {
        ChainNode(disk, levels, caps, q);
        var part, past, i := CollectLeaf(disk[lba].recs, ino);
        CollectStep(disk, levels, caps, q, i, past, ino);
        out := out + part;
        if past {
          return;
        }
        lba := disk[lba].right;
        q := q + 1;
      }
      AllOnDisk(disk, levels, caps, q);
      assert leaves[..q] == leaves;
    }

    /** overflow_clear_inode: removes exactly the inode's records; the tree stays searchable. */
    method ClearInode(ino: nat)
      requires Searchable()
      modifies this`disk
      ensures Searchable()
      ensures Contents() == Without(old(Contents()), ino)
      ensures Model() == OtherInodes(old(Model()), ino)
      ensures Value() == OverflowRuns.Clear(old(Value()), ino)
    {
      hide OverflowAbstract.TreeAt, OverflowRuns.Clear, OverflowValues.Strict, Bare, Walkable, Recs, SortedRecs, AsMap,
           OtherInodes, InosBelow, ClearedIn, Without, SupplyOk;
      InOrder();
      if root == 0 {
        NothingCleared(ino);
        return;
      }
      CanWalk();
      ghost var q, d0, v;
      var lba;
      lba, q := DescendLeft(ino);
      d0, v := disk, Value();
      NothingToClear(d0, levels, caps, q, ino);
      ClearFrom(lba, q, ino);
      ClearedTree(d0, disk, levels, root, caps, ino);
      OverflowAbstract.ClearedValue(d0, disk, levels, root, caps, ino);
      OverflowRuns.ClearStrict(v, ino);
      SameSupply(d0, disk, supply);
    }

    /** Walks the chain from leaf q, compacting each leaf, until a larger inode is met. */
    method ClearFrom(first: Lba, ghost q0: nat, ino: nat)
      requires levels != [] && Walkable(disk, levels, caps) && q0 <= |levels[0]|
      requires first == Neighbour(levels[0], q0)
      requires ClearedIn(disk, disk, levels[0][..q0], ino)
      modifies this`disk
      ensures ClearedIn(old(disk), disk, levels[0], ino)
    {
      hide Walkable, Recs, SortedRecs, ClearedIn, Without;
      var lba := first;
      ghost var d0, leaves, q := disk, levels[0], q0;
      while lba != 0
        invariant 0 <= q <= |leaves| && lba == Neighbour(leaves, q)
        invariant ClearedIn(d0, disk, leaves[..q], ino)
        decreases |leaves| - q
      {
        LeafOnChain(d0, levels, caps, q);
        ghost var d := disk;
        UnclearedLeaf(d0, d, leaves, q, ino);
        var kept, past := CompactLeaf(disk[lba].recs, ino);
        disk := disk[lba := disk[lba].(recs := kept)];
        ClearedMore(d0, d, disk, leaves, q, ino);
        if past {
          RestUntouched(d0, disk, levels, caps, q, ino);
          return;
        }
        lba := disk[lba].right;
        q := q + 1;
      }
      AllOnDisk(d0, levels, caps, q);
      assert leaves[..q] == leaves;
    }

    /** Compacts the kept records of one leaf to the front. */
    static method CompactLeaf(recs: seq<Extent>, ino: nat) returns (kept: seq<Extent>, past: bool)
      ensures kept == Without(recs, ino)
      ensures past <==> exists i :: 0 <= i < |recs| && recs[i].key.ino > ino
    {
      kept, past := [], false;
      for i := 0 to |recs|
        invariant kept == Without(recs[..i], ino)
        invariant past <==> exists j :: 0 <= j < i && recs[j].key.ino > ino
      {
        assert recs[..i + 1][..i] == recs[..i];
        if recs[i].key.ino == ino {
          continue;
        }
        if recs[i].key.ino > ino {
          past := true;
        }
        kept := kept + [recs[i]];
      }
      assert recs[..|recs|] == recs;
    }
  }

  lemma {:induction false} NothingCleared(ino: nat)
    ensures Without([], ino) == [] && OtherInodes(AsMap([]), ino) == AsMap([])
    ensures OverflowRuns.Clear(OverflowValues.Tip([]), ino) == OverflowValues.Tip([])
  {
  }

  lemma {:induction false} WrittenHalves(d: Disk, d': Disk, x: Lba, a: Node, fresh_: Lba, b: Node)
    requires SplitDisk(d, d', x, a, fresh_, b)
    ensures x in d' && fresh_ in d' && d'[x] == a && d'[fresh_] == b
  {
  }

  lemma {:induction false} NothingLeft(d: Disk, levels: seq<seq<Lba>>, ino: nat)
    requires levels != []
    ensures InosBelow(LeftPart(d, levels, |levels| - 1, 0), ino)
  {
  }

  lemma {:induction false} GetInLeaf(recs: seq<Extent>, k: Key, idx: int)
    requires SortedRecs(recs) && (idx >= 0 ==> idx < |recs| && recs[idx].key == k)
    requires idx < 0 ==> var p := -(idx + 1);
      p <= |recs| && (forall i | 0 <= i < p :: Lt(recs[i].key, k)) && (forall i | p <= i < |recs| :: Lt(k, recs[i].key))
    ensures OverflowValues.Get(recs, k) == if idx >= 0 then Blocks.Some(recs[idx]) else Blocks.None
  {
    if idx >= 0 {
      OverflowValues.GetAt(recs, idx);
    } else {
      OverflowValues.GetNone(recs, k);
    }
  }

  lemma {:induction false} NothingCovers(ino: nat, block: nat)
    ensures NoneCovers([], ino, block)
  {
  }
}
