/** What the steps of an insert on disk do to the value of the tree: together they are the insert on values. */
module OverflowCommute {
  import opened OverflowNodes
  import opened OverflowShape
  import opened OverflowOrder
  import opened OverflowSearch
  import opened OverflowInsert
  import opened OverflowSteps
  import opened OverflowValues
  import opened OverflowAbstract

  /** Every step of the path took the slot that routing chooses for the key. */
  ghost predicate Chosen(d: Disk, path: seq<PathStep>, k: Key) {
    forall i | 0 <= i < |path| :: SlotFor(EntriesAt(d, path[i].lba), k, path[i].slot)
  }

  /** The route of an insert in the tree it started from. */
  ghost predicate Started(d0: Disk, l0: seq<seq<Lba>>, root: Lba, c: Caps, pos: seq<nat>, path: seq<PathStep>, k: Key) {
    && Bare(d0, l0, root, c) && Route(d0, l0, 0, pos, path) && |path| == |l0| - 1 && Chosen(d0, path, k)
    && pos[0] < |l0[0]|
  }

  /** Node x is the node of the route at its height, which is at most h. */
  ghost predicate OnRoute(d0: Disk, l0: seq<seq<Lba>>, pos: seq<nat>, h: nat, x: Lba)
    requires x in d0
  {
    var g := Level(d0[x]);
    g <= h && g < |l0| && g < |pos| && pos[g] < |l0[g]| && x == l0[g][pos[g]]
  }

  /** Off the route, and on it above height h, all nodes hold what they held. */
  ghost predicate OffSame(d0: Disk, d: Disk, l0: seq<seq<Lba>>, pos: seq<nat>, h: nat) {
    forall x | x in d0 && !OnRoute(d0, l0, pos, h, x) :: x in d && SameKeys(d0[x], d[x])
  }

  // ----- the route

  /** Where the route stands at height g, and which slot it takes. */
  lemma {:induction false} RouteNode(d0: Disk, l0: seq<seq<Lba>>, root: Lba, c: Caps, pos: seq<nat>,
                                     path: seq<PathStep>,
                                     k: Key, g: nat)
    requires Started(d0, l0, root, c, pos, path, k) && 1 <= g < |l0|
    ensures |pos| == |l0| && pos[g] < |l0[g]| && pos[g - 1] < |l0[g - 1]|
    ensures var step := path[|l0| - 1 - g]; var es := EntriesAt(d0, l0[g][pos[g]]);
      && step.lba == l0[g][pos[g]] && SlotFor(es, k, step.slot) && es[step.slot].child == l0[g - 1][pos[g - 1]]
      && pos[g - 1] == Start(d0, l0[g], pos[g]) + step.slot
  {
    assert RouteAt(d0, l0, g, pos, path);
    var step := path[|l0| - 1 - g];
    assert LinkAt(d0, l0, g);
    EntryAt(d0, l0[g], pos[g], step.slot);
  }

  /** A node of height g, and what its entries point at. */
  lemma {:induction false} NodeAt(d0: Disk, l0: seq<seq<Lba>>, root: Lba, c: Caps, g: nat, p: nat)
    requires Bare(d0, l0, root, c) && g < |l0| && p < |l0[g]|
    ensures l0[g][p] in d0 && Level(d0[l0[g][p]]) == g && (d0[l0[g][p]].Leaf? <==> g == 0)
    ensures forall q | 0 <= q < |l0[g]| && q != p :: l0[g][q] != l0[g][p]
  {
    assert LevelAt(d0, l0, g, c);
    assert NodeOk(d0[l0[g][p]], g, c);
  }

  lemma {:induction false} ChildAt(d0: Disk, l0: seq<seq<Lba>>, root: Lba, c: Caps, g: nat, p: nat, s: nat)
    requires Bare(d0, l0, root, c) && 1 <= g < |l0| && p < |l0[g]| && s < |EntriesAt(d0, l0[g][p])|
    ensures var q := Start(d0, l0[g], p) + s;
      q < |l0[g - 1]| && EntriesAt(d0, l0[g][p])[s].child == l0[g - 1][q]
  {
    assert LinkAt(d0, l0, g);
    EntryAt(d0, l0[g], p, s);
  }

  lemma {:induction false} Apart(d: Disk, l: seq<Lba>, p: nat, s: nat, p': nat, t: nat)
    requires p < |l| && p' < |l| && p != p' && s < |EntriesAt(d, l[p])| && t < |EntriesAt(d, l[p'])|
    ensures Start(d, l, p) + s != Start(d, l, p') + t
  {
    if p < p' {
      StartsOrdered(d, l, p, p');
    } else {
      StartsOrdered(d, l, p', p);
    }
  }

  lemma {:induction false} StartsOrdered(d: Disk, l: seq<Lba>, p: nat, q: nat)
    requires p < q <= |l|
    ensures Start(d, l, p) + |EntriesAt(d, l[p])| <= Start(d, l, q)
  {
    StartNext(d, l, q - 1);
    if p < q - 1 {
      StartsOrdered(d, l, p, q - 1);
    }
  }

  // ----- what stays

  lemma {:induction false} StartedParts(d0: Disk, l0: seq<seq<Lba>>, root: Lba, c: Caps, pos: seq<nat>,
                                        path: seq<PathStep>, k: Key)
    requires Started(d0, l0, root, c, pos, path, k)
    ensures Bare(d0, l0, root, c) && |pos| == |l0| > 0 && |path| == |l0| - 1
    ensures l0[|l0| - 1] == [root] && pos[|l0| - 1] == 0 && pos[0] < |l0[0]|
  {
  }

  /** A node off the route holds what it held. */
  lemma {:induction false} OffKeys(d0: Disk, d: Disk, l0: seq<seq<Lba>>, root: Lba, c: Caps, pos: seq<nat>, h: nat,
                                   g: nat, p: nat)
    requires Bare(d0, l0, root, c) && OffSame(d0, d, l0, pos, h)
    requires g < |l0| == |pos| && p < |l0[g]| && (p != pos[g] || g > h)
    ensures EntriesAt(d, l0[g][p]) == EntriesAt(d0, l0[g][p]) && RecsAt(d, l0[g][p]) == RecsAt(d0, l0[g][p])
  {
    var x := l0[g][p];
    NodeAt(d0, l0, root, c, g, p);
    hide Bare;
    assert !OnRoute(d0, l0, pos, h, x);
    assert SameKeys(d0[x], d[x]);
  }

  lemma {:induction false} SameTreeAt(d0: Disk, d: Disk, x: Lba, g: nat)
    requires EntriesAt(d, x) == EntriesAt(d0, x) && RecsAt(d, x) == RecsAt(d0, x)
    requires g > 0 ==> KidsFor(d, EntriesAt(d0, x), g - 1) == KidsFor(d0, EntriesAt(d0, x), g - 1)
    ensures TreeAt(d, x, g) == TreeAt(d0, x, g)
  {
  }

  lemma {:induction false} NodeFork(d: Disk, x: Lba, h: nat)
    ensures TreeAt(d, x, h + 1) == Fork(KidsFor(d, EntriesAt(d, x), h))
  {
  }

  /** Trees off the route keep their value. */
  lemma {:induction false} OffRoute(d0: Disk, d: Disk, l0: seq<seq<Lba>>, root: Lba, c: Caps, pos: seq<nat>,
                                    path: seq<PathStep>, k: Key, h: nat, g: nat, p: nat)
    requires Started(d0, l0, root, c, pos, path, k) && OffSame(d0, d, l0, pos, h)
    requires g < |l0| == |pos| && p < |l0[g]| && p != pos[g]
    ensures TreeAt(d, l0[g][p], g) == TreeAt(d0, l0[g][p], g)
    decreases g
  {
    hide Started, Bare, OffSame, TreeAt, KidsFor, Start;
    StartedParts(d0, l0, root, c, pos, path, k);
    var x := l0[g][p];
    OffKeys(d0, d, l0, root, c, pos, h, g, p);
    if g > 0 {
      var es := EntriesAt(d0, x);
      RouteNode(d0, l0, root, c, pos, path, k, g);
      forall s | 0 <= s < |es| ensures TreeAt(d, es[s].child, g - 1) == TreeAt(d0, es[s].child, g - 1) {
        ChildAt(d0, l0, root, c, g, p, s);
        Apart(d0, l0[g], p, s, pos[g], path[|l0| - 1 - g].slot);
        OffRoute(d0, d, l0, root, c, pos, path, k, h, g - 1, Start(d0, l0[g], p) + s);
      }
      SameKids(d0, d, es, g - 1);
    }
    SameTreeAt(d0, d, x, g);
  }

  lemma {:induction false} SameKids(d0: Disk, d: Disk, es: seq<Entry>, h: nat)
    requires forall s | 0 <= s < |es| :: TreeAt(d, es[s].child, h) == TreeAt(d0, es[s].child, h)
    ensures KidsFor(d, es, h) == KidsFor(d0, es, h)
  {
    hide TreeAt, KidsFor;
    forall s | 0 <= s < |es| ensures KidsFor(d, es, h)[s] == KidsFor(d0, es, h)[s] {
      KidAt(d, es, h, s);
      KidAt(d0, es, h, s);
    }
  }

  /** Below a node of the route, all slots but the one taken keep their value. */
  lemma {:induction false} SiblingsSame(d0: Disk, d: Disk, l0: seq<seq<Lba>>, root: Lba, c: Caps, pos: seq<nat>,
                                        path: seq<PathStep>, k: Key, h: nat, g: nat)
    requires Started(d0, l0, root, c, pos, path, k) && OffSame(d0, d, l0, pos, h) && 1 <= g < |l0| == |pos|
    requires pos[g] < |l0[g]|
    ensures var es := EntriesAt(d0, l0[g][pos[g]]); var s := path[|l0| - 1 - g].slot;
      s < |es| && forall i | 0 <= i < |es| && i != s :: TreeAt(d, es[i].child, g - 1) == TreeAt(d0, es[i].child, g - 1)
  {
    hide Started, Bare, OffSame, TreeAt, KidsFor, Start;
    StartedParts(d0, l0, root, c, pos, path, k);
    RouteNode(d0, l0, root, c, pos, path, k, g);
    var es, s := EntriesAt(d0, l0[g][pos[g]]), path[|l0| - 1 - g].slot;
    forall i | 0 <= i < |es| && i != s ensures TreeAt(d, es[i].child, g - 1) == TreeAt(d0, es[i].child, g - 1) {
      ChildAt(d0, l0, root, c, g, pos[g], i);
      OffRoute(d0, d, l0, root, c, pos, path, k, h, g - 1, Start(d0, l0[g], pos[g]) + i);
    }
  }

  lemma {:induction false} LinkedChild(d: Disk, levels: seq<seq<Lba>>, c: Caps, skip: nat, h: nat, p: nat, s: nat)
    requires TreeBut(d, levels, c, skip) && 1 <= h < |levels| && h != skip && p < |levels[h]|
    requires s < |EntriesAt(d, levels[h][p])|
    ensures var q := Start(d, levels[h], p) + s;
      q < |levels[h - 1]| && EntriesAt(d, levels[h][p])[s].child == levels[h - 1][q]
  {
    assert LinkAt(d, levels, h);
    EntryAt(d, levels[h], p, s);
  }

  lemma {:induction false} LowKeys(d: Disk, d': Disk, levels: seq<seq<Lba>>, c: Caps, skip: nat, h: nat, p: nat)
    requires TreeBut(d, levels, c, skip) && h < |levels| && p < |levels[h]| && KeptUpTo(d, d', h)
    ensures EntriesAt(d', levels[h][p]) == EntriesAt(d, levels[h][p])
    ensures RecsAt(d', levels[h][p]) == RecsAt(d, levels[h][p])
  {
    HeightOf(d, levels, c, skip, h, p);
    hide TreeBut;
    assert SameKeys(d[levels[h][p]], d'[levels[h][p]]);
  }

  /** All nodes of height at most h hold what they held. */
  ghost predicate KeptUpTo(d: Disk, d': Disk, h: nat) {
    forall x | x in d && Level(d[x]) <= h :: x in d' && SameKeys(d[x], d'[x])
  }

  lemma {:induction false} KeptLower(d: Disk, d': Disk, h: nat, g: nat)
    requires KeptUpTo(d, d', h) && g <= h
    ensures KeptUpTo(d, d', g)
  {
  }

  /** Trees of height at most h keep their value when the nodes up to that height do. */
  lemma {:induction false} LowSame(d: Disk, d': Disk, levels: seq<seq<Lba>>, c: Caps, skip: nat, h: nat, p: nat)
    requires TreeBut(d, levels, c, skip) && h < |levels| && h < skip && p < |levels[h]| && KeptUpTo(d, d', h)
    ensures TreeAt(d', levels[h][p], h) == TreeAt(d, levels[h][p], h)
    decreases h
  {
    hide TreeBut, KeptUpTo, TreeAt, KidsFor, Start;
    var x := levels[h][p];
    LowKeys(d, d', levels, c, skip, h, p);
    if h > 0 {
      var es := EntriesAt(d, x);
      KeptLower(d, d', h, h - 1);
      forall s | 0 <= s < |es| ensures TreeAt(d', es[s].child, h - 1) == TreeAt(d, es[s].child, h - 1) {
        LinkedChild(d, levels, c, skip, h, p, s);
        LowSame(d, d', levels, c, skip, h - 1, Start(d, levels[h], p) + s);
      }
      SameKids(d, d', es, h - 1);
    }
    SameTreeAt(d, d', x, h);
  }

  // ----- stages of an insert

  /** Up to height h the insert has been done: the node of the route there holds the outcome. */
  ghost predicate Settled(d0: Disk, l0: seq<seq<Lba>>, d: Disk, c: Caps, h: nat, pos: seq<nat>, e: Extent) {
    && h < |l0| == |pos| && pos[h] < |l0[h]| && OffSame(d0, d, l0, pos, h)
    && Put(TreeAt(d0, l0[h][pos[h]], h), e, c) == One(TreeAt(d, l0[h][pos[h]], h))
  }

  /** The node of the route at height h has become two, which the two entries describe. */
  ghost predicate Staged(d0: Disk, l0: seq<seq<Lba>>, d: Disk, c: Caps, h: nat, pos: seq<nat>, e: Extent,
                         left: Entry, push: Entry)
  {
    && h < |l0| == |pos| && pos[h] < |l0[h]| && OffSame(d0, d, l0, pos, h) && left.child == l0[h][pos[h]]
    && Put(TreeAt(d0, l0[h][pos[h]], h), e, c)
       == Two(Kid(left.key, TreeAt(d, left.child, h)), Kid(push.key, TreeAt(d, push.child, h)))
  }

  /** The outcome below is settled in the kids of the next node of the route. */
  lemma {:induction false} PutAbove(d0: Disk, l0: seq<seq<Lba>>, root: Lba, c: Caps, pos: seq<nat>, path: seq<PathStep>,
                                    e: Extent, g: nat)
    requires Started(d0, l0, root, c, pos, path, e.key) && 1 <= g < |l0|
    ensures |pos| == |l0| && pos[g] < |l0[g]| && pos[g - 1] < |l0[g - 1]|
    ensures var kids := KidsFor(d0, EntriesAt(d0, l0[g][pos[g]]), g - 1); var s := path[|l0| - 1 - g].slot;
      && s < |kids| && TreeAt(d0, l0[g][pos[g]], g) == Fork(kids)
      && Put(TreeAt(d0, l0[g][pos[g]], g), e, c)
         == Settle(kids, s, Put(TreeAt(d0, l0[g - 1][pos[g - 1]], g - 1), e, c), c)
  {
    RouteNode(d0, l0, root, c, pos, path, e.key, g);
    var es, s := EntriesAt(d0, l0[g][pos[g]]), path[|l0| - 1 - g].slot;
    var kids := KidsFor(d0, es, g - 1);
    KidAt(d0, es, g - 1, s);
    forall i | 0 <= i < |es| ensures kids[i].key == es[i].key {
      KidAt(d0, es, g - 1, i);
    }
    assert Slot(kids, e.key) == s;
    assert TreeAt(d0, l0[g][pos[g]], g) == Fork(kids);
    hide TreeAt, KidsFor, Started;
    assert PutKid(kids[s], e, c) == Put(kids[s].tree, e, c);
  }

  /** On the route above height h nodes still hold what they held. */
  lemma {:induction false} RouteSame(d0: Disk, d: Disk, l0: seq<seq<Lba>>, root: Lba, c: Caps, pos: seq<nat>, h: nat,
                                     g: nat)
    requires Bare(d0, l0, root, c) && OffSame(d0, d, l0, pos, h) && h < g < |l0| == |pos| && pos[g] < |l0[g]|
    ensures l0[g][pos[g]] in d0 && l0[g][pos[g]] in d && SameKeys(d0[l0[g][pos[g]]], d[l0[g][pos[g]]])
    ensures EntriesAt(d, l0[g][pos[g]]) == EntriesAt(d0, l0[g][pos[g]])
  {
    NodeAt(d0, l0, root, c, g, pos[g]);
  }

  lemma {:induction false} OffSameUp(d0: Disk, d: Disk, l0: seq<seq<Lba>>, pos: seq<nat>, h: nat, g: nat)
    requires OffSame(d0, d, l0, pos, h) && h <= g
    ensures OffSame(d0, d, l0, pos, g)
  {
  }

  /** The kids of a node whose entries did not change, one of which has a new tree. */
  lemma {:induction false} OneKid(d0: Disk, d: Disk, es: seq<Entry>, s: nat, h: nat)
    requires s < |es|
    requires forall i | 0 <= i < |es| && i != s :: TreeAt(d, es[i].child, h) == TreeAt(d0, es[i].child, h)
    ensures KidsFor(d, es, h) == KidsFor(d0, es, h)[s := Kid(es[s].key, TreeAt(d, es[s].child, h))]
    ensures KidsFor(d0, es, h)[s].key == es[s].key
  {
    hide TreeAt, KidsFor;
    forall i | 0 <= i < |es|
      ensures KidsFor(d, es, h)[i] == Kid(es[i].key, TreeAt(d, es[i].child, h))
      ensures KidsFor(d0, es, h)[i] == Kid(es[i].key, TreeAt(d0, es[i].child, h))
    {
      KidAt(d, es, h, i);
      KidAt(d0, es, h, i);
    }
  }

  /** A settled insert is settled one height up, where nothing was written. */
  lemma {:induction false} Climb(d0: Disk, l0: seq<seq<Lba>>, root: Lba, d: Disk, c: Caps, h: nat, pos: seq<nat>,
                                 path: seq<PathStep>, e: Extent)
    requires Started(d0, l0, root, c, pos, path, e.key) && Settled(d0, l0, d, c, h, pos, e) && h + 1 < |l0|
    ensures Settled(d0, l0, d, c, h + 1, pos, e)
  {
    var g := h + 1;
    PutAbove(d0, l0, root, c, pos, path, e, g);
    RouteNode(d0, l0, root, c, pos, path, e.key, g);
    RouteSame(d0, d, l0, root, c, pos, h, g);
    SiblingsSame(d0, d, l0, root, c, pos, path, e.key, h, g);
    OffSameUp(d0, d, l0, pos, h, g);
    var x, es, s := l0[g][pos[g]], EntriesAt(d0, l0[g][pos[g]]), path[|l0| - 1 - g].slot;
    OneKid(d0, d, es, s, h);
    assert TreeAt(d, x, g) == Fork(KidsFor(d, es, h));
    hide TreeAt, KidsFor, Started, OffSame, Put;
  }

  /** A settled insert is the insert of the whole tree. */
  lemma {:induction false} ClimbToRoot(d0: Disk, l0: seq<seq<Lba>>, root: Lba, d: Disk, c: Caps, h: nat, pos: seq<nat>,
                                       path: seq<PathStep>, e: Extent)
    requires Started(d0, l0, root, c, pos, path, e.key) && Settled(d0, l0, d, c, h, pos, e)
    ensures TreeAt(d, root, |l0| - 1) == Insert(TreeAt(d0, root, |l0| - 1), e, c)
    decreases |l0| - h
  {
    hide TreeAt, OffSame, Put;
    if h + 1 < |l0| {
      Climb(d0, l0, root, d, c, h, pos, path, e);
      ClimbToRoot(d0, l0, root, d, c, h + 1, pos, path, e);
    } else {
      assert l0[h] == [root] && pos[h] == 0;
    }
  }

  /** The kids of a parent that has taken the two entries. */
  lemma {:induction false} MergedKids(d0: Disk, d: Disk, es: seq<Entry>, s: nat, left: Entry, push: Entry, h: nat)
    requires s < |es|
    requires forall i | 0 <= i < |es| && i != s :: TreeAt(d, es[i].child, h) == TreeAt(d0, es[i].child, h)
    ensures KidsFor(d, Combined(es, s, left, push), h)
      == Merged(KidsFor(d0, es, h), s, Kid(left.key, TreeAt(d, left.child, h)), Kid(push.key, TreeAt(d, push.child, h)))
  {
    hide TreeAt, KidsFor;
    var all := Combined(es, s, left, push);
    var a, b := KidsFor(d, all, h),
      Merged(KidsFor(d0, es, h), s, Kid(left.key, TreeAt(d, left.child, h)), Kid(push.key, TreeAt(d, push.child, h)));
    forall i | 0 <= i < |all| ensures a[i] == b[i] {
      KidAt(d, all, h, i);
      if i < s {
        KidAt(d0, es, h, i);
      } else if i > s + 1 {
        KidAt(d0, es, h, i - 1);
      }
    }
  }

  /** The trees below the two entries are untouched by writing nodes of greater height. */
  ghost predicate HalvesKept(d: Disk, d': Disk, h: nat, left: Entry, push: Entry) {
    TreeAt(d', left.child, h) == TreeAt(d, left.child, h) && TreeAt(d', push.child, h) == TreeAt(d, push.child, h)
  }

  /** The outcome of a parent that takes these entries, whole or in halves. */
  function TakenBy(d: Disk, all: seq<Entry>, h: nat, c: Caps): Outcome
    requires |all| >= 2
  {
    if |all| <= c.index then One(Fork(KidsFor(d, all, h)))
    else
      var n := |all| / 2;
      Two(Kid(all[0].key, Fork(KidsFor(d, all[..n], h))), Kid(all[n].key, Fork(KidsFor(d, all[n..], h))))
  }

  lemma {:induction false} SettleTaken(d: Disk, kids: seq<Kid>, s: nat, l: Kid, r: Kid, all: seq<Entry>, h: nat,
                                       c: Caps)
    requires s < |kids| && |all| >= 2 && KidsFor(d, all, h) == Merged(kids, s, l, r)
    ensures Settle(kids, s, Two(l, r), c) == TakenBy(d, all, h, c)
  {
    hide KidsFor, Merged;
    var merged, n := Merged(kids, s, l, r), |all| / 2;
    KidAt(d, all, h, 0);
    KidAt(d, all, h, n);
    KidsSlice(d, all, 0, n, h);
    KidsSlice(d, all, n, |all|, h);
    assert all[0..n] == all[..n] && all[n..|all|] == all[n..];
    assert merged[0..n] == merged[..n] && merged[n..|all|] == merged[n..];
  }

  lemma {:induction false} CombinedSize(es: seq<Entry>, s: nat, left: Entry, push: Entry)
    requires s < |es|
    ensures |Combined(es, s, left, push)| == |es| + 1
  {
  }

  /** What the insert makes of the parent, told by the entries it ends up with. */
  lemma {:induction false} ParentTakes(d0: Disk, l0: seq<seq<Lba>>, root: Lba, d: Disk, d': Disk, c: Caps, h: nat,
                                       pos: seq<nat>, path: seq<PathStep>, e: Extent, left: Entry, push: Entry)
    requires Started(d0, l0, root, c, pos, path, e.key) && Staged(d0, l0, d, c, h, pos, e, left, push) && h + 1 < |l0|
    requires OffSame(d0, d', l0, pos, h + 1) && HalvesKept(d, d', h, left, push)
    ensures pos[h + 1] < |l0[h + 1]| && path[|l0| - 2 - h].slot < |EntriesAt(d0, l0[h + 1][pos[h + 1]])|
    ensures var all := Combined(EntriesAt(d0, l0[h + 1][pos[h + 1]]), path[|l0| - 2 - h].slot, left, push);
      |all| >= 2 && Put(TreeAt(d0, l0[h + 1][pos[h + 1]], h + 1), e, c) == TakenBy(d', all, h, c)
  {
    hide TreeAt, KidsFor, Started, OffSame, Put, TakenBy, Settle, Merged, Combined;
    var g := h + 1;
    StartedParts(d0, l0, root, c, pos, path, e.key);
    PutAbove(d0, l0, root, c, pos, path, e, g);
    SiblingsSame(d0, d', l0, root, c, pos, path, e.key, g, g);
    var es, s := EntriesAt(d0, l0[g][pos[g]]), path[|l0| - 1 - g].slot;
    MergedKids(d0, d', es, s, left, push, h);
    CombinedSize(es, s, left, push);
    SettleTaken(d', KidsFor(d0, es, h), s, Kid(left.key, TreeAt(d', left.child, h)),
                Kid(push.key, TreeAt(d', push.child, h)), Combined(es, s, left, push), h, c);
  }

  // ----- the steps of the code

  /** A parent with room. */
  lemma {:induction false} FilledStage(d0: Disk, l0: seq<seq<Lba>>, root: Lba, d: Disk, d': Disk, c: Caps, h: nat,
                                       pos: seq<nat>, path: seq<PathStep>, e: Extent, left: Entry, push: Entry,
                                       all: seq<Entry>)
    requires Started(d0, l0, root, c, pos, path, e.key) && Staged(d0, l0, d, c, h, pos, e, left, push) && h + 1 < |l0|
    requires HalvesKept(d, d', h, left, push) && pos[h + 1] < |l0[h + 1]|
    requires var x := l0[h + 1][pos[h + 1]]; x in d && d[x].Index? && d' == d[x := d[x].(entries := all)]
    requires path[|l0| - 2 - h].slot < |EntriesAt(d, l0[h + 1][pos[h + 1]])| && |all| <= c.index
    requires all == Combined(EntriesAt(d, l0[h + 1][pos[h + 1]]), path[|l0| - 2 - h].slot, left, push)
    ensures Settled(d0, l0, d', c, h + 1, pos, e)
  {
    hide Started, Bare, TreeAt, KidsFor, Put, Combined;
    StartedParts(d0, l0, root, c, pos, path, e.key);
    var g, x := h + 1, l0[h + 1][pos[h + 1]];
    RouteSame(d0, d, l0, root, c, pos, h, g);
    NodeAt(d0, l0, root, c, g, pos[g]);
    WriteOffSame(d0, d, d', l0, pos, h, x);
    hide OffSame;
    ParentTakes(d0, l0, root, d, d', c, h, pos, path, e, left, push);
    NodeFork(d', x, h);
  }

  lemma {:induction false} WriteOffSame(d0: Disk, d: Disk, d': Disk, l0: seq<seq<Lba>>, pos: seq<nat>, h: nat, x: Lba)
    requires OffSame(d0, d, l0, pos, h) && x in d0 && OnRoute(d0, l0, pos, h + 1, x) && x in d' && d' == d[x := d'[x]]
    ensures OffSame(d0, d', l0, pos, h + 1)
  {
    forall y | y in d0 && !OnRoute(d0, l0, pos, h + 1, y) ensures y in d' && SameKeys(d0[y], d'[y]) {
      assert !OnRoute(d0, l0, pos, h, y) && y != x;
    }
  }

  /** A full parent. */
  lemma {:induction false} DividedStage(d0: Disk, l0: seq<seq<Lba>>, root: Lba, d: Disk, d': Disk, c: Caps, h: nat,
                                        pos: seq<nat>, path: seq<PathStep>, e: Extent, left: Entry, push: Entry,
                                        all: seq<Entry>, a: Node, fresh_: Lba, b: Node)
    requires Started(d0, l0, root, c, pos, path, e.key) && Staged(d0, l0, d, c, h, pos, e, left, push) && h + 1 < |l0|
    requires HalvesKept(d, d', h, left, push) && pos[h + 1] < |l0[h + 1]|
    requires path[|l0| - 2 - h].slot < |EntriesAt(d, l0[h + 1][pos[h + 1]])| && |all| > c.index && |all| >= 2
    requires all == Combined(EntriesAt(d, l0[h + 1][pos[h + 1]]), path[|l0| - 2 - h].slot, left, push)
    requires IndexHalves(d, l0[h + 1][pos[h + 1]], all, fresh_, a, b)
    requires SplitDisk(d, d', l0[h + 1][pos[h + 1]], a, fresh_, b)
    ensures Staged(d0, l0, d', c, h + 1, pos, e, Entry(all[0].key, l0[h + 1][pos[h + 1]]),
                   Entry(all[|all| / 2].key, fresh_))
  {
    hide Started, Bare, TreeAt, KidsFor, Put, Combined, OffSame;
    StartedParts(d0, l0, root, c, pos, path, e.key);
    var g, x := h + 1, l0[h + 1][pos[h + 1]];
    RouteSame(d0, d, l0, root, c, pos, h, g);
    NodeAt(d0, l0, root, c, g, pos[g]);
    SplitOffSame(d0, d, d', l0, pos, h, x, a, fresh_, b);
    HalfEntries(d, d', x, all, a, fresh_, b);
    hide SplitDisk, IndexHalves;
    ParentTakes(d0, l0, root, d, d', c, h, pos, path, e, left, push);
    NodeFork(d', x, h);
    NodeFork(d', fresh_, h);
  }

  lemma {:induction false} HalfEntries(d: Disk, d': Disk, x: Lba, all: seq<Entry>, a: Node, fresh_: Lba, b: Node)
    requires IndexHalves(d, x, all, fresh_, a, b) && SplitDisk(d, d', x, a, fresh_, b)
    ensures EntriesAt(d', x) == all[..|all| / 2] && EntriesAt(d', fresh_) == all[|all| / 2..]
  {
  }

  /** Splitting a node of the route leaves the rest as it was, but for a link. */
  lemma {:induction false} SplitOffSame(d0: Disk, d: Disk, d': Disk, l0: seq<seq<Lba>>, pos: seq<nat>, h: nat, x: Lba,
                                        a: Node, fresh_: Lba, b: Node)
    requires OffSame(d0, d, l0, pos, h) && SplitDisk(d, d', x, a, fresh_, b)
    requires x in d0 && OnRoute(d0, l0, pos, h + 1, x)
    ensures OffSame(d0, d', l0, pos, h + 1)
  {
    forall y | y in d0 && !OnRoute(d0, l0, pos, h + 1, y) ensures y in d' && SameKeys(d0[y], d'[y]) {
      assert !OnRoute(d0, l0, pos, h, y);
      assert y in d && y != x && SameKeys(d0[y], d[y]);
      assert d'[y] == if y == b.right && y != 0 then d[y].(left := fresh_) else d[y];
    }
  }

  /** A new root over the two halves of the old one. */
  lemma {:induction false} GrownStage(d0: Disk, l0: seq<seq<Lba>>, root: Lba, d: Disk, d': Disk, c: Caps,
                                      pos: seq<nat>, path: seq<PathStep>, e: Extent, left: Entry, push: Entry,
                                        fresh_: Lba)
    requires Started(d0, l0, root, c, pos, path, e.key) && Staged(d0, l0, d, c, |l0| - 1, pos, e, left, push)
    requires HalvesKept(d, d', |l0| - 1, left, push) && fresh_ in d' && d'[fresh_] == Index(|l0|, 0, 0, [left, push])
    ensures TreeAt(d', fresh_, |l0|) == Insert(TreeAt(d0, root, |l0| - 1), e, c)
  {
    hide TreeAt, KidsFor, OffSame, Put, Bare, Started;
    StartedParts(d0, l0, root, c, pos, path, e.key);
    var h, es := |l0| - 1, [left, push];
    NodeFork(d', fresh_, h);
    KidAt(d', es, h, 0);
    KidAt(d', es, h, 1);
    assert KidsFor(d', es, h) == [Kid(left.key, TreeAt(d', left.child, h)), Kid(push.key, TreeAt(d', push.child, h))];
  }

  /** The covering leaf takes the record. */
  lemma {:induction false} WrittenStage(d0: Disk, l0: seq<seq<Lba>>, root: Lba, d': Disk, c: Caps, pos: seq<nat>,
                                        path: seq<PathStep>, e: Extent, at: nat, w: nat)
    requires Started(d0, l0, root, c, pos, path, e.key) && |pos| == |l0|
    requires var x := l0[0][pos[0]];
      && x in d0 && d0[x].Leaf? && PlaceFor(d0[x].recs, at, w, e.key) && (w == 1 || |d0[x].recs| < c.leaf)
      && d' == d0[x := d0[x].(recs := d0[x].recs[..at] + [e] + d0[x].recs[at + w..])]
    ensures Settled(d0, l0, d', c, 0, pos, e)
  {
    var x := l0[0][pos[0]];
    NodeAt(d0, l0, root, c, 0, pos[0]);
    assert OffSame(d0, d', l0, pos, 0);
    StoredHere(d0[x].recs, e, at, w);
  }

  lemma {:induction false} StoredHere(recs: seq<Extent>, e: Extent, at: nat, w: nat)
    requires PlaceFor(recs, at, w, e.key)
    ensures Stored(recs, e) == recs[..at] + [e] + recs[at + w..]
  {
    PlaceUnique(recs, e.key, PlaceOf(recs, e.key), at, w);
  }

  lemma {:induction false} PlaceUnique(recs: seq<Extent>, k: Key, p: nat, at: nat, w: nat)
    requires PlaceFor(recs, at, w, k) && p <= |recs| && forall i | 0 <= i < p :: Lt(recs[i].key, k)
    requires p < |recs| ==> !Lt(recs[p].key, k)
    ensures p == at && (w == 1 <==> p < |recs| && recs[p].key == k)
  {
    if at < |recs| {
      var r := recs[at];
      assert at < p ==> Lt(r.key, k);
    }
    if p < |recs| {
      var r := recs[p];
      assert p < at ==> Lt(r.key, k);
    }
  }

  /** The covering leaf splits. */
  lemma {:induction false} LeafStage(d0: Disk, l0: seq<seq<Lba>>, root: Lba, d': Disk, c: Caps, pos: seq<nat>,
                                     path: seq<PathStep>, e: Extent, at: nat, all: seq<Extent>, a: Node, fresh_: Lba,
                                     b: Node)
    requires Started(d0, l0, root, c, pos, path, e.key) && |pos| == |l0|
    requires var x := l0[0][pos[0]];
      && x in d0 && d0[x].Leaf? && PlaceFor(d0[x].recs, at, 0, e.key) && |d0[x].recs| == c.leaf
      && all == d0[x].recs[..at] + [e] + d0[x].recs[at..] && LeafHalves(d0, x, all, fresh_, a, b)
      && SplitDisk(d0, d', x, a, fresh_, b)
    ensures Staged(d0, l0, d', c, 0, pos, e, Entry(all[0].key, l0[0][pos[0]]), Entry(all[|all| / 2].key, fresh_))
  {
    var x := l0[0][pos[0]];
    NodeAt(d0, l0, root, c, 0, pos[0]);
    LeafOffSame(d0, d', l0, pos, x, a, fresh_, b);
    LeafPut(d0[x].recs, e, at, all, c);
    LeafValues(d0, d', x, all, a, fresh_, b);
    hide OffSame, Put, TreeAt, Bare;
  }

  lemma {:induction false} LeafPut(recs: seq<Extent>, e: Extent, at: nat, all: seq<Extent>, c: Caps)
    requires PlaceFor(recs, at, 0, e.key) && |recs| == c.leaf && all == recs[..at] + [e] + recs[at..] && |all| >= 2
    ensures var n := |all| / 2;
      Put(Tip(recs), e, c) == Two(Kid(all[0].key, Tip(all[..n])), Kid(all[n].key, Tip(all[n..])))
  {
    StoredHere(recs, e, at, 0);
    hide Stored;
    assert Put(Tip(recs), e, c) == PutTip(recs, e, c);
  }

  lemma {:induction false} LeafValues(d0: Disk, d': Disk, x: Lba, all: seq<Extent>, a: Node, fresh_: Lba, b: Node)
    requires x in d0 && d0[x].Leaf? && LeafHalves(d0, x, all, fresh_, a, b) && SplitDisk(d0, d', x, a, fresh_, b)
    ensures TreeAt(d0, x, 0) == Tip(d0[x].recs)
    ensures TreeAt(d', x, 0) == Tip(all[..|all| / 2]) && TreeAt(d', fresh_, 0) == Tip(all[|all| / 2..])
  {
  }

  lemma {:induction false} LeafOffSame(d0: Disk, d': Disk, l0: seq<seq<Lba>>, pos: seq<nat>, x: Lba, a: Node,
                                       fresh_: Lba, b: Node)
    requires SplitDisk(d0, d', x, a, fresh_, b) && x in d0 && OnRoute(d0, l0, pos, 0, x)
    ensures OffSame(d0, d', l0, pos, 0)
  {
    forall y | y in d0 && !OnRoute(d0, l0, pos, 0, y) ensures y in d' && SameKeys(d0[y], d'[y]) {
      assert y != x;
      assert d'[y] == if y == b.right && y != 0 then d0[y].(left := fresh_) else d0[y];
    }
  }

  // ----- the same, as the code calls it

  /** The tree an insert started from, and its record. */
  datatype Origin = Origin(disk: Disk, levels: seq<seq<Lba>>, root: Lba, e: Extent)

  ghost function Goal(o: Origin, c: Caps): Tree
    requires o.levels != []
  {
    Insert(TreeAt(o.disk, o.root, |o.levels| - 1), o.e, c)
  }

  /** The insert has reached height h with a split node there; above it nothing has changed. */
  ghost predicate Going(o: Origin, d: Disk, levels: seq<seq<Lba>>, c: Caps, h: nat, pos: seq<nat>, path: seq<PathStep>,
                        left: Entry, push: Entry)
  {
    && Started(o.disk, o.levels, o.root, c, pos, path, o.e.key)
    && Staged(o.disk, o.levels, d, c, h, pos, o.e, left, push)
    && |levels| == |o.levels| && forall g | h < g < |levels| :: levels[g] == o.levels[g]
  }

  /** The two halves keep their value when only nodes above them are written. */
  lemma {:induction false} KeptBelow(d: Disk, d': Disk, levels: seq<seq<Lba>>, c: Caps, h: nat, pos: seq<nat>,
                                     left: Entry, push: Entry)
    requires TreeBut(d, levels, c, h + 1) && HalvesOf(levels, h, pos, left, push)
    requires KeptUpTo(d, d', h)
    ensures HalvesKept(d, d', h, left, push)
  {
    hide TreeBut, KeptUpTo, TreeAt;
    LowSame(d, d', levels, c, h + 1, h, pos[h]);
    LowSame(d, d', levels, c, h + 1, h, pos[h] + 1);
  }

  lemma {:induction false} FilledValue(o: Origin, d: Disk, d': Disk, levels: seq<seq<Lba>>, c: Caps, h: nat,
                                       pos: seq<nat>,
                                       path: seq<PathStep>, left: Entry, push: Entry, x: Lba, s: nat)
    requires Going(o, d, levels, c, h, pos, path, left, push) && h + 1 < |levels|
    requires TreeBut(d, levels, c, h + 1) && HalvesOf(levels, h, pos, left, push)
    requires pos[h + 1] < |levels[h + 1]| && x == levels[h + 1][pos[h + 1]] && path[|levels| - 2 - h].slot == s
    requires x in d && d[x].Index? && d[x].level == h + 1 && s < |d[x].entries| && |d[x].entries| < c.index
    requires d' == d[x := d[x].(entries := Combined(d[x].entries, s, left, push))]
    ensures TreeAt(d', o.root, |levels| - 1) == Goal(o, c)
  {
    hide TreeBut, Started, Put, TreeAt, OffSame;
    KeptBelow(d, d', levels, c, h, pos, left, push);
    FilledStage(o.disk, o.levels, o.root, d, d', c, h, pos, path, o.e, left, push,
                Combined(d[x].entries, s, left, push));
    ClimbToRoot(o.disk, o.levels, o.root, d', c, h + 1, pos, path, o.e);
  }

  lemma {:induction false} DividedValue(o: Origin, d: Disk, d': Disk, levels: seq<seq<Lba>>, levels': seq<seq<Lba>>,
                                        c: Caps, h: nat, pos: seq<nat>, path: seq<PathStep>, left: Entry, push: Entry,
                                        x: Lba, s: nat, all: seq<Entry>, fresh_: Lba)
    requires Going(o, d, levels, c, h, pos, path, left, push) && h + 1 < |levels|
    requires TreeBut(d, levels, c, h + 1) && HalvesOf(levels, h, pos, left, push)
    requires pos[h + 1] < |levels[h + 1]| && x == levels[h + 1][pos[h + 1]] && path[|levels| - 2 - h].slot == s
    requires x in d && d[x].Index? && d[x].level == h + 1 && s < |d[x].entries| && |all| > c.index && |all| >= 2
    requires all == Combined(d[x].entries, s, left, push)
    requires x in d' && fresh_ in d' && IndexHalves(d, x, all, fresh_, d'[x], d'[fresh_])
    requires SplitDisk(d, d', x, d'[x], fresh_, d'[fresh_])
    requires |levels'| == |levels| && forall g | h + 1 < g < |levels| :: levels'[g] == levels[g]
    ensures Going(o, d', levels', c, h + 1, pos, path, Entry(all[0].key, x), Entry(all[|all| / 2].key, fresh_))
  {
    hide TreeBut, Started, Put, TreeAt, OffSame, Combined;
    forall y | y in d && Level(d[y]) <= h ensures y in d' && SameKeys(d[y], d'[y]) {
      assert y != x;
      assert d'[y] == if y == d'[fresh_].right && y != 0 then d[y].(left := fresh_) else d[y];
    }
    KeptBelow(d, d', levels, c, h, pos, left, push);
    hide SplitDisk;
    DividedStage(o.disk, o.levels, o.root, d, d', c, h, pos, path, o.e, left, push, all, d'[x], fresh_, d'[fresh_]);
  }

  lemma {:induction false} GrownValue(o: Origin, d: Disk, d': Disk, levels: seq<seq<Lba>>, c: Caps, pos: seq<nat>,
                                      path: seq<PathStep>, left: Entry, push: Entry, fresh_: Lba)
    requires levels != [] && Going(o, d, levels, c, |levels| - 1, pos, path, left, push)
    requires TreeBut(d, levels, c, |levels|) && HalvesOf(levels, |levels| - 1, pos, left, push)
    requires fresh_ !in d && d' == d[fresh_ := Index(|levels|, 0, 0, [left, push])]
    ensures TreeAt(d', fresh_, |levels|) == Goal(o, c)
  {
    hide TreeBut, Started, Put, TreeAt, OffSame;
    KeptBelow(d, d', levels, c, |levels| - 1, pos, left, push);
    GrownStage(o.disk, o.levels, o.root, d, d', c, pos, path, o.e, left, push, fresh_);
  }

  lemma {:induction false} WrittenValue(o: Origin, d': Disk, c: Caps, pos: seq<nat>, path: seq<PathStep>, at: nat,
                                        w: nat)
    requires Started(o.disk, o.levels, o.root, c, pos, path, o.e.key)
    requires var x := o.levels[0][pos[0]];
      && x in o.disk && o.disk[x].Leaf? && PlaceFor(o.disk[x].recs, at, w, o.e.key)
      && (w == 1 || |o.disk[x].recs| < c.leaf)
      && d' == o.disk[x := o.disk[x].(recs := o.disk[x].recs[..at] + [o.e] + o.disk[x].recs[at + w..])]
    ensures TreeAt(d', o.root, |o.levels| - 1) == Goal(o, c)
  {
    hide Put, TreeAt, OffSame, PlaceFor, Bare;
    WrittenStage(o.disk, o.levels, o.root, d', c, pos, path, o.e, at, w);
    ClimbToRoot(o.disk, o.levels, o.root, d', c, 0, pos, path, o.e);
  }

  /** Both sides of writing the leaf of the route: the skeleton stays whole, and the value is the goal. */
  lemma {:induction false} LeafWritten(o: Origin, x: Lba, c: Caps, pos: seq<nat>, path: seq<PathStep>, at: nat, w: nat)
    requires Started(o.disk, o.levels, o.root, c, pos, path, o.e.key)
    requires x == o.levels[0][pos[0]] && x in o.disk && o.disk[x].Leaf? && |o.disk[x].recs| <= c.leaf
    requires PlaceFor(o.disk[x].recs, at, w, o.e.key) && (w == 1 || |o.disk[x].recs| < c.leaf)
    ensures at + w <= |o.disk[x].recs|
    ensures var d' := o.disk[x := o.disk[x].(recs := o.disk[x].recs[..at] + [o.e] + o.disk[x].recs[at + w..])];
      && Bare(d', o.levels, o.root, c) && d'.Keys == o.disk.Keys && |d'| == |o.disk|
      && TreeAt(d', o.root, |o.levels| - 1) == Goal(o, c)
  {
    var all := o.disk[x].recs[..at] + [o.e] + o.disk[x].recs[at + w..];
    var d' := o.disk[x := o.disk[x].(recs := all)];
    FilledTree(o.disk, d', o.levels, o.root, c, pos[0], all);
    WrittenValue(o, d', c, pos, path, at, w);
    hide Bare, TreeAt, Goal, PlaceFor;
  }

  lemma {:induction false} LeafGoing(d: Disk, d': Disk, l: seq<seq<Lba>>, l': seq<seq<Lba>>, root: Lba, c: Caps,
                                     pos: seq<nat>, path: seq<PathStep>, e: Extent, at: nat, all: seq<Extent>, a: Node,
                                     fresh_: Lba, b: Node)
    requires Bare(d, l, root, c) && Route(d, l, 0, pos, path) && |path| == |l| - 1 && Chosen(d, path, e.key)
    requires pos[0] < |l[0]|
    requires var x := l[0][pos[0]];
      && x in d && d[x].Leaf? && PlaceFor(d[x].recs, at, 0, e.key) && |d[x].recs| == c.leaf
      && all == d[x].recs[..at] + [e] + d[x].recs[at..] && LeafHalves(d, x, all, fresh_, a, b)
      && SplitDisk(d, d', x, a, fresh_, b)
    requires |l'| == |l| && forall g | 0 < g < |l| :: l'[g] == l[g]
    ensures Going(Origin(d, l, root, e), d', l', c, 0, pos, path, Entry(all[0].key, l[0][pos[0]]),
                  Entry(all[|all| / 2].key, fresh_))
  {
    hide Bare, SplitDisk, Staged;
    LeafStage(d, l, root, d', c, pos, path, e, at, all, a, fresh_, b);
  }

  /** The leaf of the route, before it is split. */
  lemma {:induction false} SplitReady(d: Disk, l: seq<seq<Lba>>, root: Lba, c: Caps, pos: seq<nat>, path: seq<PathStep>,
                                      e: Extent, at: nat)
    requires Started(d, l, root, c, pos, path, e.key) && l[0][pos[0]] in d && d[l[0][pos[0]]].Leaf?
    requires PlaceFor(d[l[0][pos[0]]].recs, at, 0, e.key)
    ensures |pos| == |l| > 0 && |path| == |l| - 1 && pos[0] < |l[0]| && at <= |d[l[0][pos[0]]].recs|
    ensures var x := l[0][pos[0]]; d[x].right != x && (d[x].right != 0 ==> d[x].right in d)
  {
    RightNeighbour(d, l, c, 0, 0, pos[0]);
  }

  /** Both sides of splitting the leaf of the route. */
  lemma {:induction false} SplitStep(d: Disk, d': Disk, l: seq<seq<Lba>>, l': seq<seq<Lba>>, root: Lba, c: Caps,
                                     pos: seq<nat>, path: seq<PathStep>, e: Extent, at: nat, all: seq<Extent>, a: Node,
                                     fresh_: Lba, b: Node)
    requires CapsOk(c) && Started(d, l, root, c, pos, path, e.key) && |pos| == |l| > 0 && pos[0] < |l[0]|
    requires var x := l[0][pos[0]];
      && x in d && d[x].Leaf? && PlaceFor(d[x].recs, at, 0, e.key) && |d[x].recs| == c.leaf
      && all == d[x].recs[..at] + [e] + d[x].recs[at..] && LeafHalves(d, x, all, fresh_, a, b)
      && SplitDisk(d, d', x, a, fresh_, b)
    requires l' == l[0 := l[0][..pos[0] + 1] + [fresh_] + l[0][pos[0] + 1..]]
    ensures TreeBut(d', l', c, 1) && Route(d', l', 0, pos, path) && pos[0] + 1 < |l'[0]|
    ensures 1 < |l| ==> l'[|l| - 1] == [root] && Pending(Entries(d', l'[1]), l'[0], pos[0])
    ensures 1 == |l| ==> |l'[0]| == 2
    ensures var left, push := Entry(all[0].key, l[0][pos[0]]), Entry(all[|all| / 2].key, fresh_);
      HalvesOf(l', 0, pos, left, push) && Going(Origin(d, l, root, e), d', l', c, 0, pos, path, left, push)
  {
    assert |all| == c.leaf + 1;
    hide TreeBut, SplitDisk, Pending, Entries, Staged, PlaceFor;
    DividedTree(d, d', l, l', root, c, all, a, fresh_, b, pos, path);
    LeafGoing(d, d', l, l', root, c, pos, path, e, at, all, a, fresh_, b);
  }

  lemma {:induction false} StartedLeaf(d: Disk, l: seq<seq<Lba>>, root: Lba, c: Caps, pos: seq<nat>,
                                       path: seq<PathStep>,
                                       k: Key)
    requires Started(d, l, root, c, pos, path, k)
    ensures |pos| == |l| > 0 && |path| == |l| - 1 && pos[0] < |l[0]| && Route(d, l, 0, pos, path) && Chosen(d, path, k)
    ensures var x := l[0][pos[0]]; x in d && d[x].Leaf? && |d[x].recs| <= c.leaf
  {
    HeightOf(d, l, c, 0, 0, pos[0]);
  }

  lemma {:induction false} FirstValue(e: Extent, lba: Lba, c: Caps)
    requires CapsOk(c)
    ensures TreeAt(map[lba := Leaf(0, 0, [e])], lba, 0) == Insert(Tip([]), e, c)
  {
    StoredHere([], e, 0, 0);
    assert [][..0] + [e] + [][0..] == [e];
    assert Put(Tip([]), e, c) == PutTip([], e, c);
  }

  /** Refreshing entry s and inserting the new entry behind it. */
  lemma {:induction false} TakesBoth(entries: seq<Entry>, s: nat, left: Entry, push: Entry)
    requires s < |entries| && entries[s].child == left.child
    ensures var es := entries[s := Entry(left.key, entries[s].child)];
      es[..s + 1] + [push] + es[s + 1..] == Combined(entries, s, left, push)
    ensures |Combined(entries, s, left, push)| == |entries| + 1
  {
  }

  /** The lookup on values follows the route. */
  lemma {:induction false} RouteFind(d: Disk, l: seq<seq<Lba>>, root: Lba, c: Caps, pos: seq<nat>, path: seq<PathStep>,
                                     k: Key)
    requires Started(d, l, root, c, pos, path, k)
    ensures |pos| == |l| > 0 && pos[0] < |l[0]|
    ensures Find(TreeAt(d, root, |l| - 1), k) == Get(RecsAt(d, l[0][pos[0]]), k)
  {
    StartedParts(d, l, root, c, pos, path, k);
    RouteFindAt(d, l, root, c, pos, path, k, |l| - 1);
  }

  lemma {:induction false} RouteFindAt(d: Disk, l: seq<seq<Lba>>, root: Lba, c: Caps, pos: seq<nat>,
                                       path: seq<PathStep>,
                                       k: Key, h: nat)
    requires Started(d, l, root, c, pos, path, k) && h < |l| == |pos| && pos[h] < |l[h]| && pos[0] < |l[0]|
    ensures Find(TreeAt(d, l[h][pos[h]], h), k) == Get(RecsAt(d, l[0][pos[0]]), k)
    decreases h
  {
    if h > 0 {
      RouteNode(d, l, root, c, pos, path, k, h);
      RouteFindAt(d, l, root, c, pos, path, k, h - 1);
      var es, s := EntriesAt(d, l[h][pos[h]]), path[|l| - 1 - h].slot;
      var kids := KidsFor(d, es, h - 1);
      KidAt(d, es, h - 1, s);
      forall i | 0 <= i < |es| ensures kids[i].key == es[i].key {
        KidAt(d, es, h - 1, i);
      }
      NodeFork(d, l[h][pos[h]], h - 1);
      hide TreeAt, KidsFor, Started;
      assert Slot(kids, k) == s;
      assert Find(Fork(kids), k) == FindKid(kids[s], k);
    }
  }
}
