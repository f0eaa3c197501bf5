/** The two descents through a well-formed tree: what holds at every node they pass. */
module OverflowDescent {
  import opened OverflowNodes
  import opened OverflowShape
  import opened OverflowSearch
  import opened OverflowInsert
  import opened OverflowScan
  import opened OverflowValues
  import opened OverflowExact
  import opened OverflowAbstract

  /** A node of a skeleton, ready to be searched. */
  lemma {:induction false} SearchNode(d: Disk, levels: seq<seq<Lba>>, root: Lba, c: Caps, h: nat, p: nat)
    requires Bare(d, levels, root, c) && h < |levels| && p < |levels[h]| && Strict(TreeAt(d, levels[h][p], h))
    ensures levels[h][p] in d && (d[levels[h][p]].Index? <==> h > 0)
    ensures h > 0 ==> |d[levels[h][p]].entries| > 0 && SortedEntries(d[levels[h][p]].entries)
    ensures h > 0 ==> EntriesAt(d, levels[h][p]) == d[levels[h][p]].entries
    ensures h == 0 ==> SortedRecs(d[levels[h][p]].recs)
  {
    HeightOf(d, levels, c, 0, h, p);
    if h > 0 {
      EntriesSorted(d, EntriesAt(d, levels[h][p]), h - 1);
    }
  }

  lemma {:induction false} EntriesSorted(d: Disk, es: seq<Entry>, h: nat)
    requires StrictAll(KidsFor(d, es, h))
    ensures SortedEntries(es)
  {
    hide KidsFor;
    StrictAscends(KidsFor(d, es, h));
    forall i, j | 0 <= i < j < |es| ensures Lt(es[i].key, es[j].key) {
      KidAt(d, es, h, i);
      KidAt(d, es, h, j);
    }
  }

  /** Child s of node p, as a node of the level below. */
  lemma {:induction false} StepDown(d: Disk, levels: seq<seq<Lba>>, root: Lba, c: Caps, h: nat, p: nat, s: nat)
    requires Bare(d, levels, root, c) && 1 <= h < |levels| && p < |levels[h]| && Strict(TreeAt(d, levels[h][p], h))
    requires s < |EntriesAt(d, levels[h][p])|
    ensures var j := Start(d, levels[h], p) + s;
      && j < |levels[h - 1]| && EntriesAt(d, levels[h][p])[s].child == levels[h - 1][j]
      && Strict(TreeAt(d, levels[h - 1][j], h - 1))
  {
    assert LinkAt(d, levels, h);
    EntryAt(d, levels[h], p, s);
    var es := EntriesAt(d, levels[h][p]);
    KidAt(d, es, h - 1, s);
    assert StrictKid(KidsFor(d, es, h - 1)[s]);
  }

  lemma {:induction false} RootNode(d: Disk, levels: seq<seq<Lba>>, root: Lba, c: Caps)
    requires Bare(d, levels, root, c)
    ensures levels[|levels| - 1] == [root]
  {
  }

  // ----- to the first leaf of an inode

  /** The records stored left of node p of height h. */
  ghost function LeftPart(d: Disk, levels: seq<seq<Lba>>, h: nat, p: nat): seq<Extent>
    requires h < |levels|
  {
    if h + 1 == |levels| then []
    else if p <= |Entries(d, levels[h + 1])| then RecordsAll(KidsFor(d, Entries(d, levels[h + 1])[..p], h))
    else []
  }

  /** One step down, the part to the left grows by what lies left of the slot. */
  lemma {:induction false} LeftGrows(d: Disk, levels: seq<seq<Lba>>, root: Lba, c: Caps, h: nat, p: nat, s: nat)
    requires Bare(d, levels, root, c) && 1 <= h < |levels| && p < |levels[h]| && s < |EntriesAt(d, levels[h][p])|
    ensures LeftPart(d, levels, h - 1, Start(d, levels[h], p) + s)
      == LeftPart(d, levels, h, p) + RecordsAll(KidsFor(d, EntriesAt(d, levels[h][p])[..s], h - 1))
  {
    hide Entries, RecordsAll, TreeAt, KidsFor, Bare;
    UpperPart(d, levels, root, c, h, p);
    PrefixSplit(d, levels[h], p, s);
    var before, es := Entries(d, levels[h][..p]), EntriesAt(d, levels[h][p]);
    KidsConcat(d, before, es[..s], h - 1);
    AllOfConcat(KidsFor(d, before, h - 1), KidsFor(d, es[..s], h - 1));
  }

  lemma {:induction false} PrefixSplit(d: Disk, l: seq<Lba>, p: nat, s: nat)
    requires p < |l| && s < |EntriesAt(d, l[p])|
    ensures var j := Start(d, l, p) + s;
      j <= |Entries(d, l)| && Entries(d, l)[..j] == Entries(d, l[..p]) + EntriesAt(d, l[p])[..s]
  {
    EntriesAround(d, l, p);
    hide Entries;
  }

  lemma {:induction false} UpperPart(d: Disk, levels: seq<seq<Lba>>, root: Lba, c: Caps, h: nat, p: nat)
    requires Bare(d, levels, root, c) && 1 <= h < |levels| && p < |levels[h]|
    ensures LeftPart(d, levels, h, p) == RecordsAll(KidsFor(d, Entries(d, levels[h][..p]), h - 1))
  {
    hide Bare, Entries, TreeAt, KidsFor, RecordsAll;
    if h + 1 == |levels| {
      RootNode(d, levels, root, c);
      NothingBefore(d, levels[h], p, h - 1);
    } else {
      LevelPoints(d, levels, root, c, h + 1);
      NodesBelow(d, Entries(d, levels[h + 1]), levels[h], h - 1, p);
    }
  }

  lemma {:induction false} NothingBefore(d: Disk, l: seq<Lba>, p: nat, h: nat)
    requires p < |l| == 1
    ensures RecordsAll(KidsFor(d, Entries(d, l[..p]), h)) == []
  {
    assert l[..p] == [];
  }

  lemma {:induction false} LeftLeaves(d: Disk, levels: seq<seq<Lba>>, root: Lba, c: Caps, p: nat)
    requires Bare(d, levels, root, c) && p < |levels[0]|
    ensures LeftPart(d, levels, 0, p) == Recs(d, levels[0][..p])
  {
    if 1 == |levels| {
      assert levels[0][..p] == [];
    } else {
      LevelPoints(d, levels, root, c, 1);
      LeavesBelow(d, Entries(d, levels[1]), levels[0], p);
    }
  }

  /** Following the strict-less slot, everything to the left still belongs to smaller inodes. */
  lemma {:induction false} LeftDown(d: Disk, levels: seq<seq<Lba>>, root: Lba, c: Caps, h: nat, p: nat, ino: nat,
                                    s: nat)
    requires Bare(d, levels, root, c) && 1 <= h < |levels| && p < |levels[h]| && Strict(TreeAt(d, levels[h][p], h))
    requires SlotLeftOf(EntriesAt(d, levels[h][p]), ino, s) && InosBelow(LeftPart(d, levels, h, p), ino)
    ensures InosBelow(LeftPart(d, levels, h - 1, Start(d, levels[h], p) + s), ino)
  {
    var es := EntriesAt(d, levels[h][p]);
    assert StrictAll(KidsFor(d, es, h - 1));
    hide TreeAt, KidsFor, Entries, Bare, LeftPart, Start, StrictAll, RecordsAll;
    LeftGrows(d, levels, root, c, h, p, s);
    SlotLeft(d, es, h - 1, ino, s);
  }

  lemma {:induction false} SlotLeft(d: Disk, es: seq<Entry>, h: nat, ino: nat, s: nat)
    requires StrictAll(KidsFor(d, es, h)) && SlotLeftOf(es, ino, s)
    ensures InosBelow(RecordsAll(KidsFor(d, es[..s], h)), ino)
  {
    hide TreeAt, KidsFor, StrictAll, RecordsAll;
    var kids := KidsFor(d, es, h);
    KidsSlice(d, es, 0, s, h);
    assert es[0..s] == es[..s] && kids[0..s] == kids[..s];
    if s > 0 {
      StrictAround(kids, s);
      KidAt(d, es, h, s);
      BelowInode(RecordsAll(kids[..s]), es[s].key, ino);
    } else {
      NoKids();
    }
  }

  lemma {:induction false} NoKids()
    ensures RecordsAll([]) == []
  {
  }

  lemma {:induction false} BelowInode(s: seq<Extent>, k: Key, ino: nat)
    requires AllBelow(s, k) && k.ino < ino
    ensures InosBelow(s, ino)
  {
  }
}
