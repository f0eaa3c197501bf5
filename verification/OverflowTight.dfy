/** Insert-only trees as values: separators equal the first key below them, and inserts keep them so. */
module OverflowTight {
  import opened OverflowNodes
  import opened OverflowShape
  import opened OverflowOrder
  import opened OverflowInsert
  import opened OverflowValues
  import opened OverflowRuns
  import opened OverflowExact
  import opened OverflowAbstract

  /** The key in slot 0 of the root. */
  function First(t: Tree): Key {
    match t
    case Tip(recs) => if recs == [] then Key(0, 0) else recs[0].key
    case Fork(kids) => if kids == [] then Key(0, 0) else kids[0].key
  }

  /** No node is empty, and every separator is the slot-0 key of its child; along the left spine slot 0 is free. */
  ghost predicate Tight(t: Tree, spine: bool) {
    match t
    case Tip(recs) => recs != []
    case Fork(kids) => TightAll(kids, spine)
  }

  ghost predicate TightKid(k: Kid, spine: bool) {
    Tight(k.tree, spine)
  }

  ghost predicate TightAll(kids: seq<Kid>, spine: bool) {
    && kids != [] && (forall j | 0 <= j < |kids| :: TightKid(kids[j], spine && j == 0))
    && (forall j | 0 <= j < |kids| :: (spine && j == 0) || kids[j].key == First(kids[j].tree))
  }

  lemma {:induction false} TightParts(a: seq<Kid>, b: seq<Kid>, spine: bool)
    requires a != [] && b != []
    ensures TightAll(a + b, spine) <==> TightAll(a, spine) && TightAll(b, false)
  {
    hide TightKid;
    var t := a + b;
    assert forall i | 0 <= i < |a| :: t[i] == a[i];
    assert forall i | 0 <= i < |b| :: t[|a| + i] == b[i];
  }

  // ----- inserts

  ghost predicate TightOut(x: Outcome, spine: bool) {
    match x
    case One(t) => Tight(t, spine)
    case Two(l, r) => TightAll([l, r], spine) && l.key == First(l.tree)
  }

  function FirstOut(x: Outcome): Key {
    match x
    case One(t) => First(t)
    case Two(l, r) => l.key
  }

  lemma {:induction false} TwoTight(l: Kid, r: Kid, spine: bool)
    requires Tight(l.tree, spine) && Tight(r.tree, false) && l.key == First(l.tree) && r.key == First(r.tree)
    ensures TightAll([l, r], spine)
  {
    assert [l, r][0] == l && [l, r][1] == r;
    assert TightKid(l, spine) && TightKid(r, false);
  }

  lemma {:induction false} PutTipTight(recs: seq<Extent>, e: Extent, c: Caps, spine: bool)
    requires SortedRecs(recs) && recs != [] && (!spine ==> !Lt(e.key, recs[0].key))
    ensures TightOut(PutTip(recs, e, c), spine) && (!spine ==> FirstOut(PutTip(recs, e, c)) == recs[0].key)
  {
    var all := Stored(recs, e);
    StoredSorted(recs, e);
    StoredFirst(recs, e);
    hide Stored;
    if PutTip(recs, e, c).Two? {
      var n := |all| / 2;
      TwoTight(Kid(all[0].key, Tip(all[..n])), Kid(all[n].key, Tip(all[n..])), spine);
    }
  }

  lemma {:induction false} StoredFirst(recs: seq<Extent>, e: Extent)
    requires recs != []
    ensures !Lt(e.key, recs[0].key) ==> Stored(recs, e) != [] && Stored(recs, e)[0].key == recs[0].key
  {
  }

  /** What an insert makes of the node above. */
  lemma {:induction false} SettleTight(kids: seq<Kid>, s: nat, x: Outcome, c: Caps, spine: bool)
    requires TightAll(kids, spine) && s < |kids| && TightOut(x, spine && s == 0)
    requires !(spine && s == 0) ==> FirstOut(x) == kids[s].key
    ensures TightOut(Settle(kids, s, x, c), spine) && (!spine ==> FirstOut(Settle(kids, s, x, c)) == kids[0].key)
  {
    match x
    case One(t) =>
      assert TightKid(Kid(kids[s].key, t), spine && s == 0);
    case Two(l, r) =>
      var all := Merged(kids, s, l, r);
      MergedTight(kids, s, l, r, spine);
      var n := |all| / 2;
      assert all == all[..n] + all[n..];
      TightParts(all[..n], all[n..], spine);
      TwoTight(Kid(all[0].key, Fork(all[..n])), Kid(all[n].key, Fork(all[n..])), spine);
      assert s > 0 ==> all[0] == kids[0];
  }

  lemma {:induction false} MergedTight(kids: seq<Kid>, s: nat, l: Kid, r: Kid, spine: bool)
    requires TightAll(kids, spine) && s < |kids| && TightAll([l, r], spine && s == 0)
    requires !(spine && s == 0) ==> l.key == kids[s].key
    ensures TightAll(Merged(kids, s, l, r), spine) && |Merged(kids, s, l, r)| >= 2
  {
    hide TightKid;
    var all := Merged(kids, s, l, r);
    assert [l, r][0] == l && [l, r][1] == r;
    forall j | 0 <= j < |all|
      ensures TightKid(all[j], spine && j == 0) && ((spine && j == 0) || all[j].key == First(all[j].tree))
    {
      if j < s {
        assert all[j] == kids[j];
      } else if j > s + 1 {
        assert all[j] == kids[j - 1];
      } else if j == s {
        assert all[j] == l;
      } else {
        assert all[j] == r;
      }
    }
  }

  lemma {:induction false} PutTight(t: Tree, e: Extent, c: Caps, spine: bool)
    requires Strict(t) && Tight(t, spine) && (!spine ==> !Lt(e.key, First(t)))
    ensures TightOut(Put(t, e, c), spine) && (!spine ==> FirstOut(Put(t, e, c)) == First(t))
    ensures SafePut(t, e, c)
  {
    match t
    case Tip(recs) => PutTipTight(recs, e, c, spine);
    case Fork(kids) =>
      var s := Slot(kids, e.key);
      assert StrictKid(kids[s]) && TightKid(kids[s], spine && s == 0);
      PutKidTight(kids[s], e, c, spine && s == 0);
      SettleTight(kids, s, PutKid(kids[s], e, c), c, spine);
      if s > 0 && PutKid(kids[s], e, c).Two? {
        SameKeyFits(kids, e, c);
      }
  }

  lemma {:induction false} PutKidTight(k: Kid, e: Extent, c: Caps, spine: bool)
    requires StrictKid(k) && TightKid(k, spine) && (!spine ==> !Lt(e.key, First(k.tree)))
    ensures TightOut(PutKid(k, e, c), spine) && (!spine ==> FirstOut(PutKid(k, e, c)) == First(k.tree))
    ensures SafeKid(k, e, c)
  {
    PutTight(k.tree, e, c, spine);
  }

  /** A key handed up that equals the one it replaces fits. */
  lemma {:induction false} SameKeyFits(kids: seq<Kid>, e: Extent, c: Caps)
    requires StrictAll(kids)
    requires var s := Slot(kids, e.key); var x := PutKid(kids[s], e, c); s > 0 && x.Two? && x.left.key == kids[s].key
    ensures var s := Slot(kids, e.key); Handed(kids[..s], PutKid(kids[s], e, c).left)
  {
    var s := Slot(kids, e.key);
    var x := PutKid(kids[s], e, c);
    PutInSlot(kids, e, c);
    StrictAround(kids, s);
    AllOfOne(x.left);
    BelowConcat(Records(x.left.tree), Records(x.right.tree), kids[s].key);
  }

  /** Inserts keep tight trees tight and well formed. */
  lemma {:induction false} InsertTight(t: Tree, e: Extent, c: Caps)
    requires Strict(t) && Tight(t, true)
    ensures Tight(Insert(t, e, c), true) && Strict(Insert(t, e, c))
  {
    PutTight(t, e, c, true);
    InsertIff(t, e, c);
  }

  lemma {:induction false} FirstTight(e: Extent, c: Caps)
    requires CapsOk(c)
    ensures Tight(Insert(Tip([]), e, c), true) && Strict(Insert(Tip([]), e, c))
  {
    StoredSorted([], e);
    assert Stored([], e) == [e];
  }

  // ----- from the disk to the value

  lemma {:induction false} FirstIs(d: Disk, x: Lba, h: nat)
    requires x in d && Level(d[x]) == h && (d[x].Leaf? <==> h == 0) && Size(d[x]) > 0
    ensures First(TreeAt(d, x, h)) == FirstKey(d[x])
  {
    if h > 0 {
      KidAt(d, EntriesAt(d, x), h - 1, 0);
    }
  }

  lemma {:induction false} ExactNode(d: Disk, levels: seq<seq<Lba>>, root: Lba, c: Caps, h: nat, p: nat)
    requires Exact(d, levels, root, c) && h < |levels| && p < |levels[h]|
    ensures levels[h][p] in d && Level(d[levels[h][p]]) == h && (d[levels[h][p]].Leaf? <==> h == 0)
    ensures Size(d[levels[h][p]]) > 0
  {
    assert LevelAt(d, levels, h, c);
    assert NodeOk(d[levels[h][p]], h, c);
  }

  /** Entry s of node p of an index level. */
  lemma {:induction false} ExactChild(d: Disk, levels: seq<seq<Lba>>, root: Lba, c: Caps, h: nat, p: nat, s: nat)
    requires Exact(d, levels, root, c) && 1 <= h < |levels| && p < |levels[h]| && s < |EntriesAt(d, levels[h][p])|
    ensures var i := Start(d, levels[h], p) + s;
      && i < |levels[h - 1]| && EntriesAt(d, levels[h][p])[s].child == levels[h - 1][i]
      && (i == 0 <==> p == 0 && s == 0)
      && levels[h - 1][i] in d && Size(d[levels[h - 1][i]]) > 0
      && (i > 0 ==> EntriesAt(d, levels[h][p])[s].key == FirstKey(d[levels[h - 1][i]]))
  {
    assert KidsAt(d, levels, h) && ExactAt(d, levels, h);
    EntryAt(d, levels[h], p, s);
    StartsGrow(d, levels, root, c, h, p, p + 1);
    ExactNode(d, levels, root, c, h - 1, Start(d, levels[h], p) + s);
  }

  lemma {:induction false} NodeTight(d: Disk, levels: seq<seq<Lba>>, root: Lba, c: Caps, h: nat, p: nat)
    requires Exact(d, levels, root, c) && h < |levels| && p < |levels[h]|
    ensures Tight(TreeAt(d, levels[h][p], h), p == 0)
    decreases h
  {
    hide Exact, Start, KidsFor;
    var x := levels[h][p];
    ExactNode(d, levels, root, c, h, p);
    if h > 0 {
      var es := EntriesAt(d, x);
      var kids := KidsFor(d, es, h - 1);
      forall s | 0 <= s < |kids|
        ensures TightKid(kids[s], p == 0 && s == 0) && ((p == 0 && s == 0) || kids[s].key == First(kids[s].tree))
      {
        ExactChild(d, levels, root, c, h, p, s);
        var i := Start(d, levels[h], p) + s;
        NodeTight(d, levels, root, c, h - 1, i);
        ExactNode(d, levels, root, c, h - 1, i);
        FirstIs(d, levels[h - 1][i], h - 1);
        KidAt(d, es, h - 1, s);
      }
      assert TreeAt(d, x, h) == Fork(kids);
    }
  }

  /** The value of an insert-only tree on disk is tight. */
  lemma {:induction false} ExactIsTight(d: Disk, levels: seq<seq<Lba>>, root: Lba, c: Caps)
    requires Exact(d, levels, root, c)
    ensures Tight(TreeAt(d, root, |levels| - 1), true)
  {
    NodeTight(d, levels, root, c, |levels| - 1, 0);
  }

  // ----- from the value to the disk

  /** A whole level, as one list, is well formed and tight. */
  ghost predicate LevelTight(d: Disk, l: seq<Lba>, h: nat) {
    StrictAll(KidsFor(d, Entries(d, l), h)) && TightAll(KidsFor(d, Entries(d, l), h), true)
  }

  lemma {:induction false} RootLevel(d: Disk, root: Lba, h: nat)
    requires Strict(TreeAt(d, root, h + 1)) && Tight(TreeAt(d, root, h + 1), true)
    ensures LevelTight(d, [root], h)
  {
    OneNode(d, root);
    assert TreeAt(d, root, h + 1) == Fork(KidsFor(d, EntriesAt(d, root), h));
  }

  /** The kids of node p, given the level above. */
  lemma {:induction false} NodePart(d: Disk, es: seq<Entry>, l: seq<Lba>, h: nat, p: nat)
    requires PointAt(es, l) && p < |l|
    requires StrictAll(KidsFor(d, es, h + 1)) && TightAll(KidsFor(d, es, h + 1), true)
    ensures var b := KidsFor(d, EntriesAt(d, l[p]), h);
      && StrictAll(b) && TightAll(b, p == 0)
      && (p > 0 ==>
          && b[0].key == es[p].key && RightOf(b, b[0].key)
          && LeftOf(KidsFor(d, Entries(d, l[..p]), h), b[0].key))
  {
    var kids := KidsFor(d, es, h + 1);
    KidAt(d, es, h + 1, p);
    assert StrictKid(kids[p]) && TightKid(kids[p], p == 0);
    var b := KidsFor(d, EntriesAt(d, l[p]), h);
    assert TreeAt(d, l[p], h + 1) == Fork(b);
    assert Strict(Fork(b)) <==> StrictAll(b);
    assert Tight(Fork(b), p == 0) <==> TightAll(b, p == 0);
    hide TreeAt, KidsFor;
    if p > 0 {
      StrictAround(kids, p);
      assert kids[p].key == First(kids[p].tree) == b[0].key;
      PartSides(d, es, l, h, p);
    }
  }

  lemma {:induction false} PartSides(d: Disk, es: seq<Entry>, l: seq<Lba>, h: nat, p: nat)
    requires PointAt(es, l) && p < |l| && StrictAll(KidsFor(d, es, h + 1)) && p > 0
    ensures LeftOf(KidsFor(d, Entries(d, l[..p]), h), es[p].key)
    ensures RightOf(KidsFor(d, EntriesAt(d, l[p]), h), es[p].key)
  {
    hide TreeAt, KidsFor, StrictAll, LeftOf, RightOf, Entries;
    KidAt(d, es, h + 1, p);
    StrictAround(KidsFor(d, es, h + 1), p);
    PartLeft(d, es, l, h, p);
    PartRight(d, es, l, h, p);
  }

  lemma {:induction false} PartLeft(d: Disk, es: seq<Entry>, l: seq<Lba>, h: nat, p: nat)
    requires PointAt(es, l) && p < |l| && LeftOf(KidsFor(d, es, h + 1)[..p], es[p].key)
    ensures LeftOf(KidsFor(d, Entries(d, l[..p]), h), es[p].key)
  {
    hide TreeAt, KidsFor, Entries, RecordsAll, MarksAll, LeftOf, Keys;
    var kids := KidsFor(d, es, h + 1);
    KidsSlice(d, es, 0, p, h + 1);
    assert es[0..p] == es[..p] && kids[0..p] == kids[..p];
    NodesBelow(d, es, l, h, p);
    LessLeft(KidsFor(d, es[..p], h + 1), KidsFor(d, Entries(d, l[..p]), h), es[p].key);
  }

  lemma {:induction false} PartRight(d: Disk, es: seq<Entry>, l: seq<Lba>, h: nat, p: nat)
    requires PointAt(es, l) && p < |l| && RightOf(KidsFor(d, es, h + 1)[p..], es[p].key)
    ensures RightOf(KidsFor(d, EntriesAt(d, l[p]), h), es[p].key)
  {
    hide TreeAt, KidsFor, RecordsAll, MarksAll, Records, RightOf;
    var kids := KidsFor(d, es, h + 1);
    KidAt(d, es, h + 1, p);
    assert kids[p..] == [kids[p]] + kids[p + 1..];
    SidesConcat([kids[p]], kids[p + 1..], es[p].key);
    AllOfOne(kids[p]);
    NodeTree(d, l[p], h);
    SameRight([kids[p]], KidsFor(d, EntriesAt(d, l[p]), h), es[p].key);
  }

  lemma {:induction false} LessLeft(a: seq<Kid>, b: seq<Kid>, k: Key)
    requires LeftOf(a, k) && MarksAll(b) <= MarksAll(a) && RecordsAll(b) == RecordsAll(a)
    ensures LeftOf(b, k)
  {
  }

  lemma {:induction false} SameRight(a: seq<Kid>, b: seq<Kid>, k: Key)
    requires RightOf(a, k) && RecordsAll(b) == RecordsAll(a)
    ensures RightOf(b, k)
  {
  }

  /** The first p nodes of a level, given the level above. */
  lemma {:induction false} LowerLevel(d: Disk, es: seq<Entry>, l: seq<Lba>, h: nat, p: nat)
    requires PointAt(es, l) && 0 < p <= |l|
    requires StrictAll(KidsFor(d, es, h + 1)) && TightAll(KidsFor(d, es, h + 1), true)
    ensures LevelTight(d, l[..p], h)
  {
    NodePart(d, es, l, h, p - 1);
    EntriesAround(d, l, p - 1);
    hide TreeAt, KidsFor, StrictAll, TightAll, Entries, LeftOf, RightOf;
    var a, b := Entries(d, l[..p - 1]), EntriesAt(d, l[p - 1]);
    if p == 1 {
      assert l[..0] == [];
      NoEntries(d);
      assert Entries(d, l[..1]) == b;
    } else {
      LowerLevel(d, es, l, h, p - 1);
      KidsConcat(d, a, b, h);
      Filled(KidsFor(d, a, h));
      Filled(KidsFor(d, b, h));
      StrictConcat(KidsFor(d, a, h), KidsFor(d, b, h));
      TightParts(KidsFor(d, a, h), KidsFor(d, b, h), true);
    }
  }

  lemma {:induction false} NoEntries(d: Disk)
    ensures Entries(d, []) == []
  {
  }

  lemma {:induction false} Filled(kids: seq<Kid>)
    requires StrictAll(kids)
    ensures kids != []
  {
  }

  /** Every level is well formed and tight. */
  lemma {:induction false} EachLevel(d: Disk, levels: seq<seq<Lba>>, root: Lba, c: Caps, h: nat)
    requires Bare(d, levels, root, c) && 1 <= h < |levels|
    requires Strict(TreeAt(d, root, |levels| - 1)) && Tight(TreeAt(d, root, |levels| - 1), true)
    ensures LevelTight(d, levels[h], h - 1)
    decreases |levels| - h
  {
    hide TreeAt, Strict, Tight;
    if h == |levels| - 1 {
      RootLevel(d, root, h - 1);
    } else {
      EachLevel(d, levels, root, c, h + 1);
      LevelPoints(d, levels, root, c, h + 1);
      LevelSize(d, levels, root, c, h);
      hide Bare, KidsFor, Entries, StrictAll, TightAll;
      LowerLevel(d, Entries(d, levels[h + 1]), levels[h], h - 1, |levels[h]|);
      assert levels[h][..|levels[h]|] == levels[h];
    }
  }

  lemma {:induction false} LevelSize(d: Disk, levels: seq<seq<Lba>>, root: Lba, c: Caps, h: nat)
    requires Bare(d, levels, root, c) && h < |levels|
    ensures |levels[h]| > 0
  {
    assert LevelAt(d, levels, h, c);
  }

  /** What a well-formed and tight level says about the entries and the nodes below them. */
  lemma {:induction false} LevelFacts(d: Disk, levels: seq<seq<Lba>>, root: Lba, c: Caps, h: nat)
    requires Bare(d, levels, root, c) && 1 <= h < |levels| && LevelTight(d, levels[h], h - 1)
    ensures SortedEntries(Entries(d, levels[h])) && ExactAt(d, levels, h)
    ensures var l := levels[h - 1]; forall i | 0 <= i < |l| :: l[i] in d && Size(d[l[i]]) > 0
  {
    var es, l := Entries(d, levels[h]), levels[h - 1];
    var kids := KidsFor(d, es, h - 1);
    LevelPoints(d, levels, root, c, h);
    StrictAscends(kids);
    hide KidsFor, Entries, StrictAll, Tight;
    forall i, j | 0 <= i < j < |es| ensures Lt(es[i].key, es[j].key) {
      KidAt(d, es, h - 1, i);
      KidAt(d, es, h - 1, j);
    }
    forall i | 0 <= i < |l|
      ensures l[i] in d && Size(d[l[i]]) > 0 && (i > 0 ==> es[i].key == FirstKey(d[l[i]]))
    {
      HeightOf(d, levels, c, 0, h - 1, i);
      KidAt(d, es, h - 1, i);
      assert TightKid(kids[i], i == 0);
      TightSize(d, l[i], h - 1, i == 0);
      FirstIs(d, l[i], h - 1);
    }
  }

  lemma {:induction false} TightSize(d: Disk, x: Lba, h: nat, spine: bool)
    requires x in d && Level(d[x]) == h && (d[x].Leaf? <==> h == 0) && Tight(TreeAt(d, x, h), spine)
    ensures Size(d[x]) > 0
  {
  }

  /** A skeleton with a well-formed and tight value is an insert-only tree: its separators are exact. */
  lemma {:induction false} TightIsExact(d: Disk, levels: seq<seq<Lba>>, root: Lba, c: Caps)
    requires Bare(d, levels, root, c)
    requires Strict(TreeAt(d, root, |levels| - 1)) && Tight(TreeAt(d, root, |levels| - 1), true)
    ensures Exact(d, levels, root, c)
  {
    SameRecords(d, levels, root, c);
    StrictSorted(TreeAt(d, root, |levels| - 1));
    hide TreeAt, Strict, Tight, Entries, Recs, LevelTight, Records;
    forall h | 1 <= h < |levels| ensures KidsAt(d, levels, h) && ExactAt(d, levels, h) {
      EachLevel(d, levels, root, c, h);
      LevelFacts(d, levels, root, c, h);
      assert LinkAt(d, levels, h);
    }
    forall x | x in d ensures Size(d[x]) > 0 {
      NodeFilled(d, levels, root, c, x);
    }
  }

  lemma {:induction false} NodeFilled(d: Disk, levels: seq<seq<Lba>>, root: Lba, c: Caps, x: Lba)
    requires Bare(d, levels, root, c) && x in d
    requires Strict(TreeAt(d, root, |levels| - 1)) && Tight(TreeAt(d, root, |levels| - 1), true)
    ensures Size(d[x]) > 0
  {
    hide TreeAt, Strict, Tight, LevelTight;
    var h := Level(d[x]);
    var i :| 0 <= i < |levels[h]| && levels[h][i] == x;
    HeightOf(d, levels, c, 0, h, i);
    if h + 1 < |levels| {
      EachLevel(d, levels, root, c, h + 1);
      LevelFacts(d, levels, root, c, h + 1);
    } else {
      assert x == root;
      TightSize(d, x, h, true);
    }
  }
}
