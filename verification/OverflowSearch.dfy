/** Binary searches inside a node, and the routes they trace through a tree. */
module OverflowSearch {
  import opened OverflowNodes
  import opened OverflowShape
  import opened OverflowOrder

  /** Slot chosen when routing key k: the last entry not above k, or slot 0. */
  ghost predicate SlotFor(es: seq<Entry>, k: Key, s: nat) {
    && s < |es|
    && (s > 0 ==> !Lt(k, es[s].key))
    && (forall i | s < i < |es| :: Lt(k, es[i].key))
  }

  /** Slot chosen when looking for the leftmost leaf of an inode: the last entry of a smaller inode,
      or slot 0. */
  ghost predicate SlotLeftOf(es: seq<Entry>, ino: nat, s: nat) {
    && s < |es|
    && (s > 0 ==> es[s].key.ino < ino)
    && (forall i | s < i < |es| :: es[i].key.ino >= ino)
  }

  /** overflow_leaf_find: the index of the key, or -(insertion point) - 1. */
  method LeafFind(recs: seq<Extent>, k: Key) returns (idx: int)
    requires SortedRecs(recs)
    ensures idx >= 0 ==> idx < |recs| && recs[idx].key == k
    ensures idx < 0 ==> var p := -(idx + 1);
      p <= |recs| && (forall i | 0 <= i < p :: Lt(recs[i].key, k)) && (forall i | p <= i < |recs| :: Lt(k, recs[i].key))
  {
    var lo, hi := 0, |recs| - 1;
    while lo <= hi
      invariant 0 <= lo <= hi + 1 <= |recs|
      invariant forall i | 0 <= i < lo :: Lt(recs[i].key, k)
      invariant forall i | hi < i < |recs| :: Lt(k, recs[i].key)
      decreases hi - lo
    {
      var mid := lo + (hi - lo) / 2;
      var r := recs[mid].key;
      if r.ino < k.ino {
        lo := mid + 1;
      } else if r.ino > k.ino {
        hi := mid - 1;
      } else if r.off < k.off {
        lo := mid + 1;
      } else if r.off > k.off {
        hi := mid - 1;
      } else {
        return mid;
      }
    }
    return -(lo + 1);
  }

  /** overflow_index_find */
  method IndexFind(es: seq<Entry>, k: Key) returns (result: nat)
    requires SortedEntries(es) && |es| > 0
    ensures SlotFor(es, k, result)
  {
    var lo, hi := 0, |es| - 1;
    result := 0;
    while lo <= hi
      invariant 0 <= lo <= hi + 1 <= |es|
      invariant result == if lo == 0 then 0 else lo - 1
      invariant forall i | 0 <= i < lo :: !Lt(k, es[i].key)
      invariant forall i | hi < i < |es| :: Lt(k, es[i].key)
      decreases hi - lo
    {
      var mid := lo + (hi - lo) / 2;
      var e := es[mid].key;
      if e.ino < k.ino || (e.ino == k.ino && e.off <= k.off) {
        result := mid;
        lo := mid + 1;
      } else {
        hi := mid - 1;
      }
    }
  }

  /** overflow_index_find_left */
  method IndexFindLeft(es: seq<Entry>, ino: nat) returns (result: nat)
    requires SortedEntries(es) && |es| > 0
    ensures SlotLeftOf(es, ino, result)
  {
    var lo, hi := 0, |es| - 1;
    result := 0;
    while lo <= hi
      invariant 0 <= lo <= hi + 1 <= |es|
      invariant result == if lo == 0 then 0 else lo - 1
      invariant forall i | 0 <= i < lo :: es[i].key.ino < ino
      invariant forall i | hi < i < |es| :: es[i].key.ino >= ino
      decreases hi - lo
    {
      var mid := lo + (hi - lo) / 2;
      if es[mid].key.ino < ino {
        result := mid;
        lo := mid + 1;
      } else {
        hi := mid - 1;
      }
    }
  }

  // ----- the route of an insert

  /** One step of the recorded path: the index node and the slot followed. */
  datatype PathStep = PathStep(lba: Lba, slot: nat)

  /** The step taken at height g leads from node pos[g] to node pos[g - 1] of the level below. */
  ghost predicate StepAt(d: Disk, levels: seq<seq<Lba>>, g: nat, pos: seq<nat>, step: PathStep)
    requires 1 <= g < |levels| && |pos| == |levels|
  {
    && pos[g] < |levels[g]|
    && step.lba == levels[g][pos[g]]
    && step.slot < |EntriesAt(d, step.lba)|
    && pos[g - 1] == Start(d, levels[g], pos[g]) + step.slot
  }

  /** The recorded path has the step of height g. */
  ghost predicate RouteAt(d: Disk, levels: seq<seq<Lba>>, g: nat, pos: seq<nat>, path: seq<PathStep>) {
    1 <= g < |levels| && |pos| == |levels| && |levels| - 1 - g < |path|
      && StepAt(d, levels, g, pos, path[|levels| - 1 - g])
  }

  /** `path` records the steps from the root down to height h. */
  ghost predicate Route(d: Disk, levels: seq<seq<Lba>>, h: nat, pos: seq<nat>, path: seq<PathStep>) {
    && h < |levels| && |pos| == |levels| && |path| >= |levels| - 1 - h
    && pos[|levels| - 1] == 0
    && (forall g {:trigger RouteAt(d, levels, g, pos, path)} | h < g < |levels| :: RouteAt(d, levels, g, pos, path))
  }

  /** Recording one more step. */
  lemma {:induction false} ExtendRoute(d: Disk, levels: seq<seq<Lba>>, h: nat, pos: seq<nat>, pos': seq<nat>,
                                       path: seq<PathStep>, step: PathStep)
    requires Route(d, levels, h, pos, path) && |path| == |levels| - 1 - h && h > 0 && |pos'| == |pos|
    requires forall g | h <= g < |levels| :: pos'[g] == pos[g]
    requires StepAt(d, levels, h, pos', step)
    ensures Route(d, levels, h - 1, pos', path + [step])
  {
    var path' := path + [step];
    forall g | h - 1 < g < |levels| ensures RouteAt(d, levels, g, pos', path') {
      if g > h {
        assert RouteAt(d, levels, g, pos, path);
      }
    }
  }

  /** Changes at height h leave the route above it. */
  lemma {:induction false} RouteAbove(d: Disk, d': Disk, levels: seq<seq<Lba>>, levels': seq<seq<Lba>>, h: nat,
                                      pos: seq<nat>, path: seq<PathStep>)
    requires Route(d, levels, h, pos, path) && |levels'| == |levels| && SameElsewhere(d, d', levels, h)
    requires forall g | h < g < |levels| :: levels'[g] == levels[g]
    ensures Route(d', levels', h, pos, path)
  {
    forall g | h < g < |levels| ensures RouteAt(d', levels', g, pos, path) {
      assert RouteAt(d, levels, g, pos, path);
      var l := levels[g];
      forall x | x in l ensures EntriesAt(d, x) == EntriesAt(d', x) {
        var i :| 0 <= i < |l| && levels[g][i] == x;
      }
      EntriesFrame(d, d', l[..pos[g]]);
    }
  }

  /** Every node of a height other than h is as before. */
  ghost predicate SameElsewhere(d: Disk, d': Disk, levels: seq<seq<Lba>>, h: nat) {
    forall g, i {:trigger levels[g][i]} | 0 <= g < |levels| && g != h && 0 <= i < |levels[g]| ::
      levels[g][i] in d && levels[g][i] in d' && d'[levels[g][i]] == d[levels[g][i]]
  }
}
