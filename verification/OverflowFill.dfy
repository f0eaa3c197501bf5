/** How full the nodes are that inserts leave, and how many records a tree of a given height holds. */
module OverflowFill {
  import opened OverflowNodes
  import opened OverflowShape
  import opened OverflowValues
  import opened OverflowAbstract

  /** Records of a leaf, children of an index node. */
  function Count(t: Tree): nat {
    match t
    case Tip(recs) => |recs|
    case Fork(kids) => |kids|
  }

  // ----- splits

  /** A node is split only when it overflows, and then evenly, the extra item on the right. */
  lemma {:induction false} SplitEvenly(t: Tree, e: Extent, c: Caps)
    requires Put(t, e, c).Two?
    ensures var x := Put(t, e, c);
      && (x.left.tree.Tip? <==> t.Tip?) && (x.right.tree.Tip? <==> t.Tip?)
      && Count(x.left.tree) + Count(x.right.tree) == Count(t) + 1 > (if t.Tip? then c.leaf else c.index)
      && Count(x.left.tree) <= Count(x.right.tree) <= Count(x.left.tree) + 1
  {
    match t
    case Tip(recs) =>
    case Fork(kids) =>
      assert PutKid(kids[Slot(kids, e.key)], e, c).Two?;
  }

  // ----- insert-only trees stay at least half full

  /** Every node below this one, and this one unless it is the root, is at least half full; a root that is an
      index node has two children. */
  ghost predicate Filled(t: Tree, c: Caps, root: bool) {
    match t
    case Tip(recs) => root || 2 * |recs| >= c.leaf
    case Fork(kids) =>
      && (if root then |kids| >= 2 else 2 * |kids| >= c.index)
      && forall i | 0 <= i < |kids| :: FilledKid(kids[i], c)
  }

  ghost predicate FilledKid(k: Kid, c: Caps) {
    Filled(k.tree, c, false)
  }

  ghost predicate OutFilled(x: Outcome, c: Caps, root: bool) {
    match x
    case One(t) => Filled(t, c, root)
    case Two(l, r) => FilledKid(l, c) && FilledKid(r, c)
  }

  lemma {:induction false} PutFilled(t: Tree, e: Extent, c: Caps, root: bool)
    requires CapsOk(c) && Filled(t, c, root)
    ensures OutFilled(Put(t, e, c), c, root)
  {
    match t
    case Tip(recs) =>
    case Fork(kids) =>
      var s := Slot(kids, e.key);
      assert FilledKid(kids[s], c);
      PutFilled(kids[s].tree, e, c, false);
      SettleFilled(kids, s, PutKid(kids[s], e, c), c, root);
  }

  lemma {:induction false} SettleFilled(kids: seq<Kid>, s: nat, x: Outcome, c: Caps, root: bool)
    requires CapsOk(c) && s < |kids| && Filled(Fork(kids), c, root) && OutFilled(x, c, false)
    ensures OutFilled(Settle(kids, s, x, c), c, root)
  {
    match x
    case One(t) =>
      assert FilledKid(Kid(kids[s].key, t), c);
    case Two(l, r) =>
      var all := Merged(kids, s, l, r);
      var n := |all| / 2;
      assert forall i | 0 <= i < |all| :: FilledKid(all[i], c);
      assert forall i | 0 <= i < n :: all[..n][i] == all[i];
      assert forall i | 0 <= i < |all| - n :: all[n..][i] == all[n + i];
  }

  /** An insert keeps every node but the root at least half full. */
  lemma {:induction false} InsertFilled(t: Tree, e: Extent, c: Caps)
    requires CapsOk(c) && Filled(t, c, true)
    ensures Filled(Insert(t, e, c), c, true)
  {
    PutFilled(t, e, c, true);
  }

  // ----- the height of a half-full tree

  /** Records below a node of height h that is at least half full, and so is everything below it. */
  function Fewest(c: Caps, h: nat): nat {
    if h == 0 then (c.leaf + 1) / 2 else (c.index + 1) / 2 * Fewest(c, h - 1)
  }

  lemma {:induction false} FewestBelow(d: Disk, x: Lba, h: nat, c: Caps)
    requires Filled(TreeAt(d, x, h), c, false)
    ensures |Records(TreeAt(d, x, h))| >= Fewest(c, h)
    decreases h, 1, 0
  {
    if h > 0 {
      var es := EntriesAt(d, x);
      var kids := KidsFor(d, es, h - 1);
      FewestInKids(d, es, h - 1, c);
      TimesMore(|kids|, (c.index + 1) / 2, Fewest(c, h - 1));
    }
  }

  lemma {:induction false} FewestInKids(d: Disk, es: seq<Entry>, h: nat, c: Caps)
    requires forall i | 0 <= i < |es| :: FilledKid(KidsFor(d, es, h)[i], c)
    ensures |RecordsAll(KidsFor(d, es, h))| >= |es| * Fewest(c, h)
    decreases h + 1, 0, |es|
  {
    hide Fewest, Filled, TreeAt, Records;
    var kids := KidsFor(d, es, h);
    if es != [] {
      var n := |es| - 1;
      KidsSlice(d, es, 0, n, h);
      assert es[0..n] == es[..n] && kids[0..n] == kids[..n];
      forall i | 0 <= i < n ensures FilledKid(KidsFor(d, es[..n], h)[i], c) {
        assert FilledKid(kids[i], c);
      }
      FewestInKids(d, es[..n], h, c);
      assert FilledKid(kids[n], c);
      KidAt(d, es, h, n);
      FewestBelow(d, es[n].child, h, c);
      assert kids[..n] == KidsFor(d, es[..n], h);
      OneMore(n, Fewest(c, h));
    }
  }

  lemma {:induction false} OneMore(n: nat, k: nat)
    ensures (n + 1) * k == n * k + k
  {
  }

  lemma {:induction false} TimesMore(n: nat, m: nat, k: nat)
    requires n >= m
    ensures n * k >= m * k
  {
  }

  /** A tree of at least one index level whose nodes are half full holds twice what a half-full node below its
      root holds. */
  lemma {:induction false} FewestInTree(d: Disk, x: Lba, h: nat, c: Caps)
    requires h > 0 && Filled(TreeAt(d, x, h), c, true)
    ensures |Records(TreeAt(d, x, h))| >= 2 * Fewest(c, h - 1)
  {
    var es := EntriesAt(d, x);
    FewestInKids(d, es, h - 1, c);
    TimesMore(|es|, 2, Fewest(c, h - 1));
  }

  lemma {:induction false} FewestGrows(c: Caps, h: nat, h': nat)
    requires c.index >= 1 && h <= h'
    ensures Fewest(c, h) <= Fewest(c, h')
    decreases h' - h
  {
    if h < h' {
      FewestGrows(c, h, h' - 1);
      TimesMore((c.index + 1) / 2, 1, Fewest(c, h' - 1));
    }
  }

  // ----- an insert adds at most one record

  lemma {:induction false} PutAddsOne(t: Tree, e: Extent, c: Caps)
    ensures |OutRecords(Put(t, e, c))| <= |Records(t)| + 1
  {
    match t
    case Tip(recs) =>
    case Fork(kids) =>
      if kids != [] {
        var s := Slot(kids, e.key);
        PutAddsOne(kids[s].tree, e, c);
        AroundKid(kids, s);
        SettleParts(kids, s, PutKid(kids[s], e, c), c);
      }
  }

  lemma {:induction false} InsertAddsOne(t: Tree, e: Extent, c: Caps)
    ensures |Records(Insert(t, e, c))| <= |Records(t)| + 1
  {
    PutAddsOne(t, e, c);
    match Put(t, e, c)
    case One(t') =>
    case Two(l, r) =>
      assert [l, r] == [l] + [r];
      AllOfConcat([l], [r]);
      AllOfOne(l);
      AllOfOne(r);
  }
}
