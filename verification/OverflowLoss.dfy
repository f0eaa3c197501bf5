/** For all capacities but the smallest, a run of inserts and one clear after which a stored key is no longer found;
    and an insert that is unsafe and yet loses nothing. */
module OverflowLoss {
  import opened Blocks
  import opened OverflowNodes
  import opened OverflowShape
  import opened OverflowInsert
  import opened OverflowScan
  import opened OverflowValues
  import opened OverflowRuns
  import opened OverflowExact

  // ----- evaluating an insert

  lemma {:induction false} StoredAt(recs: seq<Extent>, e: Extent, p: nat)
    requires p <= |recs| && (forall i | 0 <= i < p :: Lt(recs[i].key, e.key)) && (p < |recs| ==> Lt(e.key, recs[p].key))
    ensures Stored(recs, e) == recs[..p] + [e] + recs[p..]
  {
  }

  lemma {:induction false} TipRoom(recs: seq<Extent>, e: Extent, all: seq<Extent>, c: Caps)
    requires Stored(recs, e) == all && |all| <= c.leaf
    ensures Put(Tip(recs), e, c) == One(Tip(all))
  {
  }

  lemma {:induction false} TipSplit(recs: seq<Extent>, e: Extent, all: seq<Extent>, c: Caps)
    requires Stored(recs, e) == all && |all| > c.leaf && |all| > |recs| && |all| >= 2
    ensures var n := |all| / 2;
      Put(Tip(recs), e, c) == Two(Kid(all[0].key, Tip(all[..n])), Kid(all[n].key, Tip(all[n..])))
  {
  }

  lemma {:induction false} ForkPut(kids: seq<Kid>, s: nat, e: Extent, c: Caps, x: Outcome)
    requires s < |kids| && (s > 0 ==> !Lt(e.key, kids[s].key)) && (forall i | s < i < |kids| :: Lt(e.key, kids[i].key))
    requires Put(kids[s].tree, e, c) == x
    ensures Put(Fork(kids), e, c) == Settle(kids, s, x, c)
  {
    assert Slot(kids, e.key) == s;
    assert PutKid(kids[s], e, c) == x;
  }

  // ----- a run for all capacities

  function RecAt(k: Key): Extent {
    Extent(k, 0, 1, 1)
  }

  /** The next key to insert: of the next inode, or the next offset of the same one. */
  function Up(k: Key, byIno: bool): Key {
    if byIno then Key(k.ino + 1, 0) else Key(k.ino, k.off + 1)
  }

  /** Where a list of leaves stands in the tree: one leaf that is the root, the leaves below the root, or those below
      the right one of two nodes. */
  datatype Frame = Alone | Top | Under(a: Key, left: seq<Kid>, b: Key)

  function Framed(f: Frame, kids: seq<Kid>): Tree {
    match f
    case Alone => if |kids| == 1 then kids[0].tree else Tip([])
    case Top => Fork(kids)
    case Under(a, left, b) => Fork([Kid(a, Fork(left)), Kid(b, Fork(kids))])
  }

  predicate Leads(f: Frame, kids: seq<Kid>, k: Key) {
    (f.Under? ==> !Lt(k, f.b)) && (f.Alone? ==> |kids| == 1)
  }

  lemma {:induction false} FramedPut(f: Frame, kids: seq<Kid>, e: Extent, kids': seq<Kid>, c: Caps)
    requires !f.Alone? && Leads(f, kids, e.key) && Put(Fork(kids), e, c) == One(Fork(kids'))
    ensures Insert(Framed(f, kids), e, c) == Framed(f, kids')
  {
    if f.Under? {
      var root := Framed(f, kids).kids;
      ForkPut(root, 1, e, c, One(Fork(kids')));
      assert root[1 := Kid(f.b, Fork(kids'))] == Framed(f, kids').kids;
    }
  }

  lemma {:induction false} RunAdd(ops: seq<Op>, e: Extent, c: Caps)
    ensures Run(ops + [Add(e)], c) == Insert(Run(ops, c), e, c)
  {
    assert (ops + [Add(e)])[..|ops|] == ops;
  }

  // ----- filling one leaf

  /** The key goes behind the last record of leaf s. */
  ghost predicate Behind(f: Frame, kids: seq<Kid>, s: nat, k: Key) {
    && s < |kids| && kids[s].tree.Tip? && AllBelow(kids[s].tree.recs, k) && Leads(f, kids, k)
    && (s > 0 ==> !Lt(k, kids[s].key)) && (forall i | s < i < |kids| :: k.ino < kids[i].key.ino)
  }

  function WithLeaf(kids: seq<Kid>, s: nat, recs: seq<Extent>): seq<Kid>
    requires s < |kids|
  {
    kids[s := Kid(kids[s].key, Tip(recs))]
  }

  lemma {:induction false} StoredBehind(recs: seq<Extent>, k: Key)
    requires AllBelow(recs, k)
    ensures Stored(recs, RecAt(k)) == recs + [RecAt(k)]
  {
    StoredAt(recs, RecAt(k), |recs|);
    assert recs[..|recs|] == recs && recs[|recs|..] == [];
  }

  /** An insert into a leaf with room. */
  lemma {:induction false} FillOne(f: Frame, kids: seq<Kid>, s: nat, k: Key, c: Caps, byIno: bool)
    requires Behind(f, kids, s, k) && |kids[s].tree.recs| < c.leaf && (byIno ==> s == |kids| - 1)
    ensures var kids' := WithLeaf(kids, s, kids[s].tree.recs + [RecAt(k)]);
      Insert(Framed(f, kids), RecAt(k), c) == Framed(f, kids') && Behind(f, kids', s, Up(k, byIno))
  {
    var recs := kids[s].tree.recs;
    var kids' := WithLeaf(kids, s, recs + [RecAt(k)]);
    StoredBehind(recs, k);
    TipRoom(recs, RecAt(k), recs + [RecAt(k)], c);
    if f.Alone? {
      assert kids' == [Kid(kids[0].key, Tip(recs + [RecAt(k)]))];
    } else {
      ForkPut(kids, s, RecAt(k), c, One(Tip(recs + [RecAt(k)])));
      FramedPut(f, kids, RecAt(k), kids', c);
    }
  }

  ghost predicate Ascending(recs: seq<Extent>) {
    forall i, j | 0 <= i < j < |recs| :: recs[i].key.ino < recs[j].key.ino
  }

  /** All records lie above the key. */
  ghost predicate Over(recs: seq<Extent>, lo: Key) {
    forall i | 0 <= i < |recs| :: Lt(lo, recs[i].key)
  }

  /** Inserts that fill a leaf to the brim. */
  lemma {:induction false} Fill(ops: seq<Op>, f: Frame, kids: seq<Kid>, s: nat, k: Key, c: Caps, byIno: bool, lo: Key)
    returns (ops': seq<Op>, recs: seq<Extent>, k': Key)
    requires Run(ops, c) == Framed(f, kids) && Behind(f, kids, s, k) && |kids[s].tree.recs| <= c.leaf
    requires byIno ==> s == |kids| - 1
    ensures Run(ops', c) == Framed(f, WithLeaf(kids, s, recs)) && Behind(f, WithLeaf(kids, s, recs), s, k')
    ensures |recs| == c.leaf && kids[s].tree.recs <= recs && !Lt(k', k)
    ensures byIno && Ascending(kids[s].tree.recs + [RecAt(k)]) ==> Ascending(recs + [RecAt(k')])
    ensures Over(kids[s].tree.recs + [RecAt(k)], lo) ==> Over(recs + [RecAt(k')], lo)
    decreases c.leaf - |kids[s].tree.recs|
  {
    recs := kids[s].tree.recs;
    if |recs| == c.leaf {
      ops', k' := ops, k;
      assert WithLeaf(kids, s, recs) == kids;
    } else {
      var next := recs + [RecAt(k)];
      var kids1 := WithLeaf(kids, s, next);
      FillOne(f, kids, s, k, c, byIno);
      RunAdd(ops, RecAt(k), c);
      UpKeeps(recs, k, byIno, lo);
      ops', recs, k' := Fill(ops + [Add(RecAt(k))], f, kids1, s, Up(k, byIno), c, byIno, lo);
      assert WithLeaf(kids1, s, recs) == WithLeaf(kids, s, recs);
    }
  }

  lemma {:induction false} UpKeeps(recs: seq<Extent>, k: Key, byIno: bool, lo: Key)
    ensures byIno && Ascending(recs + [RecAt(k)]) ==> Ascending(recs + [RecAt(k)] + [RecAt(Up(k, byIno))])
    ensures Over(recs + [RecAt(k)], lo) ==> Over(recs + [RecAt(k)] + [RecAt(Up(k, byIno))], lo)
  {
    var a := recs + [RecAt(k)];
    var b := a + [RecAt(Up(k, byIno))];
    if byIno && Ascending(a) {
      forall i, j | 0 <= i < j < |b| ensures b[i].key.ino < b[j].key.ino {
        assert i < |recs| ==> a[i].key.ino < a[|recs|].key.ino;
      }
    }
    if Over(a, lo) {
      forall i | 0 <= i < |b| ensures Lt(lo, b[i].key) {
        assert Lt(lo, a[|recs|].key);
      }
    }
  }

  /** The halves of an overfull leaf. */
  function LeftLeaf(all: seq<Extent>): Kid
    requires |all| >= 2
  {
    Kid(all[0].key, Tip(all[..|all| / 2]))
  }

  function RightLeaf(all: seq<Extent>): Kid
    requires |all| >= 2
  {
    Kid(all[|all| / 2].key, Tip(all[|all| / 2..]))
  }

  /** An insert into a full leaf. */
  lemma {:induction false} FullPut(f: Frame, kids: seq<Kid>, s: nat, k: Key, c: Caps)
    requires Behind(f, kids, s, k) && |kids[s].tree.recs| == c.leaf >= 1
    ensures var all := kids[s].tree.recs + [RecAt(k)];
      && Put(kids[s].tree, RecAt(k), c) == Two(LeftLeaf(all), RightLeaf(all))
      && Put(Fork(kids), RecAt(k), c) == Settle(kids, s, Two(LeftLeaf(all), RightLeaf(all)), c)
  {
    var recs := kids[s].tree.recs;
    var all := recs + [RecAt(k)];
    StoredBehind(recs, k);
    TipSplit(recs, RecAt(k), all, c);
    ForkPut(kids, s, RecAt(k), c, Two(LeftLeaf(all), RightLeaf(all)));
  }

  /** A node with room takes both halves. */
  lemma {:induction false} FullRoom(ops: seq<Op>, f: Frame, kids: seq<Kid>, s: nat, k: Key, c: Caps)
    requires !f.Alone? && Run(ops, c) == Framed(f, kids)
    requires Behind(f, kids, s, k) && |kids[s].tree.recs| == c.leaf >= 1 && |kids| < c.index
    ensures var all := kids[s].tree.recs + [RecAt(k)];
      Run(ops + [Add(RecAt(k))], c) == Framed(f, Merged(kids, s, LeftLeaf(all), RightLeaf(all)))
  {
    var all := kids[s].tree.recs + [RecAt(k)];
    FullPut(f, kids, s, k, c);
    FramedPut(f, kids, RecAt(k), Merged(kids, s, LeftLeaf(all), RightLeaf(all)), c);
    RunAdd(ops, RecAt(k), c);
  }

  // ----- growing to the right

  /** The records of a leaf, the first under the leaf's own separator, are of rising inodes. */
  ghost predicate Rung(kid: Kid) {
    kid.tree.Tip? && kid.tree.recs != [] && kid.tree.recs[0].key == kid.key && Ascending(kid.tree.recs)
  }

  ghost predicate InosUnder(kid: Kid, hi: nat) {
    kid.tree.Tip? && forall i | 0 <= i < |kid.tree.recs| :: kid.tree.recs[i].key.ino < hi
  }

  /** Leaves of rising inodes, all below `hi`. */
  ghost predicate Ladder(kids: seq<Kid>, hi: nat) {
    && (forall i | 0 <= i < |kids| :: Rung(kids[i]) && InosUnder(kids[i], hi))
    && (forall i, j | 0 <= i < j < |kids| :: InosUnder(kids[i], kids[j].key.ino))
  }

  lemma {:induction false} LadderParts(a: seq<Kid>, b: seq<Kid>, hi: nat)
    requires b != [] && Ladder(a + b, hi)
    ensures Ladder(a, b[0].key.ino) && Ladder(b, hi)
  {
    hide Rung, InosUnder;
    var t := a + b;
    assert forall i | 0 <= i < |a| :: t[i] == a[i];
    assert forall i | 0 <= i < |b| :: t[|a| + i] == b[i];
  }

  lemma {:induction false} LadderKey(kids: seq<Kid>, hi: nat, i: nat)
    requires i < |kids| && Ladder(kids, hi)
    ensures kids[i].key.ino < hi && forall j | 0 <= j < i :: kids[j].key.ino < kids[i].key.ino
  {
    assert Rung(kids[i]) && InosUnder(kids[i], hi);
    forall j | 0 <= j < i ensures kids[j].key.ino < kids[i].key.ino {
      assert Rung(kids[j]) && InosUnder(kids[j], kids[i].key.ino);
    }
  }

  /** The last leaf and the next key are of rising inodes. */
  lemma {:induction false} LastRises(kids: seq<Kid>, k: Key)
    requires kids != [] && Ladder(kids, k.ino)
    ensures Ascending(kids[|kids| - 1].tree.recs + [RecAt(k)])
  {
    assert Rung(kids[|kids| - 1]) && InosUnder(kids[|kids| - 1], k.ino);
  }

  lemma {:induction false} LadderFilled(kids: seq<Kid>, hi: nat, recs: seq<Extent>, k: Key)
    requires kids != [] && Ladder(kids, hi) && kids[|kids| - 1].tree.recs <= recs && Ascending(recs + [RecAt(k)])
    ensures Ladder(WithLeaf(kids, |kids| - 1, recs), k.ino)
  {
    var n, all := |kids| - 1, recs + [RecAt(k)];
    var filled := WithLeaf(kids, n, recs);
    assert Rung(kids[n]);
    assert forall i | 0 <= i < |recs| :: all[i] == recs[i] && all[i].key.ino < all[|recs|].key.ino;
    forall i | 0 <= i < n ensures Rung(filled[i]) && InosUnder(filled[i], k.ino) {
      assert Rung(kids[i]) && InosUnder(kids[i], kids[n].key.ino) && recs[0].key == kids[n].key;
    }
    forall i, j | 0 <= i < j < |filled| ensures InosUnder(filled[i], filled[j].key.ino) {
      assert InosUnder(kids[i], kids[j].key.ino);
    }
  }

  /** Splitting the last leaf adds a rung. */
  lemma {:induction false} LadderGrows(kids: seq<Kid>, k: Key)
    requires kids != [] && Ladder(kids, k.ino)
    ensures var all, n := kids[|kids| - 1].tree.recs + [RecAt(k)], |kids| - 1;
      |all| >= 2 && Ladder(Merged(kids, n, LeftLeaf(all), RightLeaf(all)), k.ino + 1)
  {
    var n := |kids| - 1;
    assert Rung(kids[n]);
    var all := kids[n].tree.recs + [RecAt(k)];
    LastRises(kids, k);
    var l, r := LeftLeaf(all), RightLeaf(all);
    var grown := Merged(kids, n, l, r);
    assert grown == kids[..n] + [l, r] && l.key == kids[n].key;
    HalvesRise(all, k.ino + 1);
    hide Rung, Ascending, LeftLeaf, RightLeaf;
    forall i | 0 <= i < |grown| ensures Rung(grown[i]) && InosUnder(grown[i], k.ino + 1) {
      assert i < n ==> grown[i] == kids[i] && Rung(kids[i]) && InosUnder(kids[i], k.ino);
    }
    forall i, j | 0 <= i < j < |grown| ensures InosUnder(grown[i], grown[j].key.ino) {
      if i < n {
        assert grown[i] == kids[i] && InosUnder(kids[i], kids[n].key.ino);
        assert j < n ==> grown[j] == kids[j];
      }
    }
  }

  lemma {:induction false} HalvesRise(all: seq<Extent>, hi: nat)
    requires |all| >= 2 && Ascending(all) && all[|all| - 1].key.ino < hi
    ensures Rung(LeftLeaf(all)) && InosUnder(LeftLeaf(all), RightLeaf(all).key.ino)
    ensures Rung(RightLeaf(all)) && InosUnder(LeftLeaf(all), hi) && InosUnder(RightLeaf(all), hi)
    ensures LeftLeaf(all).key.ino < RightLeaf(all).key.ino
  {
    var n := |all| / 2;
    var a, b := all[..n], all[n..];
    assert forall i | 0 <= i < |a| :: a[i] == all[i] && all[i].key.ino < all[n].key.ino;
    assert forall i | 0 <= i < |b| :: b[i] == all[n + i] && all[n + i].key.ino <= all[|all| - 1].key.ino;
  }

  /** All separators but the first, and the records of the last leaf, lie above the key. */
  ghost predicate Beyond(kids: seq<Kid>, lo: Key) {
    && |kids| >= 2 && kids[|kids| - 1].tree.Tip? && Over(kids[|kids| - 1].tree.recs, lo)
    && forall i | 1 <= i < |kids| :: Lt(lo, kids[i].key)
  }

  lemma {:induction false} BeyondGrows(kids: seq<Kid>, k: Key, lo: Key)
    requires Beyond(kids, lo) && |kids[|kids| - 1].tree.recs| >= 1 && Lt(lo, k)
    ensures var all, n := kids[|kids| - 1].tree.recs + [RecAt(k)], |kids| - 1;
      Beyond(Merged(kids, n, LeftLeaf(all), RightLeaf(all)), lo)
  {
    var n := |kids| - 1;
    var all := kids[n].tree.recs + [RecAt(k)];
    var grown := Merged(kids, n, LeftLeaf(all), RightLeaf(all));
    assert grown == kids[..n] + [LeftLeaf(all), RightLeaf(all)];
    assert forall i | 0 <= i < |all[|all| / 2..]| :: all[|all| / 2..][i] == all[|all| / 2 + i];
  }

  /** The next key still goes behind the last leaf after it was split. */
  lemma {:induction false} BehindGrows(f: Frame, kids: seq<Kid>, k: Key)
    requires !f.Alone? && kids != [] && Behind(f, kids, |kids| - 1, k) && |kids[|kids| - 1].tree.recs| >= 1
    ensures var all, n := kids[|kids| - 1].tree.recs + [RecAt(k)], |kids| - 1;
      Behind(f, Merged(kids, n, LeftLeaf(all), RightLeaf(all)), n + 1, Up(k, true))
  {
    var all, n := kids[|kids| - 1].tree.recs + [RecAt(k)], |kids| - 1;
    var b := all[|all| / 2..];
    assert forall i | 0 <= i < |all| :: !Lt(k, all[i].key);
    assert forall i | 0 <= i < |b| :: b[i] == all[|all| / 2 + i];
  }

  ghost predicate Small(kids: seq<Kid>, c: Caps) {
    forall i | 0 <= i < |kids| :: kids[i].tree.Tip? && |kids[i].tree.recs| <= c.leaf
  }

  /** Inserts on the right until the node is full, and its last leaf too. */
  lemma {:induction false} GrowRight(ops: seq<Op>, f: Frame, kids: seq<Kid>, k: Key, c: Caps, lo: Key)
    returns (ops': seq<Op>, kids': seq<Kid>, k': Key)
    requires !f.Alone? && c.leaf >= 1 && 1 <= |kids| <= c.index && Run(ops, c) == Framed(f, kids)
    requires Behind(f, kids, |kids| - 1, k) && |kids[|kids| - 1].tree.recs| <= c.leaf && Lt(lo, k)
    ensures |kids'| == c.index && Run(ops', c) == Framed(f, kids') && Behind(f, kids', c.index - 1, k')
    ensures |kids'[c.index - 1].tree.recs| == c.leaf && kids'[..|kids| - 1] == kids[..|kids| - 1]
    ensures Ladder(kids, k.ino) ==> Ladder(kids', k'.ino)
    ensures Small(kids, c) ==> Small(kids', c)
    ensures Beyond(kids, lo) ==> Beyond(kids', lo) && Lt(lo, k')
    decreases c.index - |kids|
  {
    hide Ladder, Run, Framed, Rung, InosUnder, Ascending, Over, Beyond, AllBelow, Leads, Small;
    var n := |kids| - 1;
    var ops1, recs, k1 := Fill(ops, f, kids, n, k, c, true, lo);
    var kids1 := WithLeaf(kids, n, recs);
    if Ladder(kids, k.ino) {
      LastRises(kids, k);
      LadderFilled(kids, k.ino, recs, k1);
    }
    FilledBeyond(kids, k, recs, k1, lo);
    SmallFilled(kids, recs, c);
    if |kids| == c.index {
      ops', kids', k' := ops1, kids1, k1;
    } else {
      var all := recs + [RecAt(k1)];
      var kids2 := Merged(kids1, n, LeftLeaf(all), RightLeaf(all));
      FullRoom(ops1, f, kids1, n, k1, c);
      BehindGrows(f, kids1, k1);
      SmallGrows(kids1, k1, c);
      if Ladder(kids, k.ino) {
        LadderGrows(kids1, k1);
      }
      if Beyond(kids, lo) {
        BeyondGrows(kids1, k1, lo);
      }
      ops', kids', k' := GrowRight(ops1 + [Add(RecAt(k1))], f, kids2, Up(k1, true), c, lo);
      assert kids'[..n] == kids'[..n + 1][..n] == kids2[..n] == kids[..n];
    }
  }

  lemma {:induction false} SmallFilled(kids: seq<Kid>, recs: seq<Extent>, c: Caps)
    requires kids != [] && |recs| <= c.leaf
    ensures Small(kids, c) ==> Small(WithLeaf(kids, |kids| - 1, recs), c)
  {
  }

  lemma {:induction false} SmallGrows(kids: seq<Kid>, k: Key, c: Caps)
    requires kids != [] && kids[|kids| - 1].tree.Tip? && |kids[|kids| - 1].tree.recs| == c.leaf >= 1
    ensures var all, n := kids[|kids| - 1].tree.recs + [RecAt(k)], |kids| - 1;
      Small(kids, c) ==> Small(Merged(kids, n, LeftLeaf(all), RightLeaf(all)), c)
  {
  }

  lemma {:induction false} FilledBeyond(kids: seq<Kid>, k: Key, recs: seq<Extent>, k': Key, lo: Key)
    requires kids != [] && kids[|kids| - 1].tree.Tip? && Lt(lo, k)
    requires Over(kids[|kids| - 1].tree.recs + [RecAt(k)], lo) ==> Over(recs + [RecAt(k')], lo)
    ensures Beyond(kids, lo) ==> Beyond(WithLeaf(kids, |kids| - 1, recs), lo) && Lt(lo, k')
  {
    if Beyond(kids, lo) {
      var all := recs + [RecAt(k')];
      assert Over(all, lo) && Lt(lo, all[|recs|].key);
      assert forall i | 0 <= i < |recs| :: recs[i] == all[i];
    }
  }

  // ----- two nodes of leaves

  lemma {:induction false} TwoRungs(l: Kid, r: Kid, hi: nat)
    requires Rung(l) && Rung(r) && InosUnder(l, r.key.ino) && InosUnder(l, hi) && InosUnder(r, hi)
    ensures Ladder([l, r], hi)
  {
    hide Rung, InosUnder;
  }

  /** Inserts of rising inodes until the first leaf has split. */
  lemma {:induction false} TwoLeaves(c: Caps) returns (ops: seq<Op>, kids: seq<Kid>, k: Key)
    requires c.leaf >= 1
    ensures |kids| == 2 && Run(ops, c) == Framed(Top, kids) && Behind(Top, kids, 1, k)
    ensures Ladder(kids, k.ino) && Small(kids, c) && k.ino > 0
  {
    hide Ladder;
    var one := [Kid(Key(0, 0), Tip([]))];
    var recs;
    ops, recs, k := Fill([], Alone, one, 0, Key(0, 0), c, true, Key(0, 0));
    var all := recs + [RecAt(k)];
    FullPut(Alone, WithLeaf(one, 0, recs), 0, k, c);
    RunAdd(ops, RecAt(k), c);
    HalvesRise(all, k.ino + 1);
    kids := [LeftLeaf(all), RightLeaf(all)];
    TwoRungs(kids[0], kids[1], k.ino + 1);
    ops, k := ops + [Add(RecAt(k))], Up(k, true);
  }

  /** Then until the root has split. */
  lemma {:induction false} TwoForks(c: Caps) returns (ops: seq<Op>, f: Frame, kids: seq<Kid>, k: Key)
    requires c.leaf >= 1 && c.index >= 3
    ensures f.Under? && Run(ops, c) == Framed(f, kids) && 2 <= |kids| < c.index && Behind(f, kids, |kids| - 1, k)
    ensures Ladder(kids, k.ino) && Small(kids, c) && f.b == kids[0].key && f.left != [] && Ladder(f.left, f.b.ino)
  {
    hide Run, Rung, InosUnder, Ladder, Behind, Small;
    ops, kids, k := TwoLeaves(c);
    SmallLast(kids, c);
    ops, kids, k := GrowRight(ops, Top, kids, k, c, Key(0, 0));
    SmallLast(kids, c);
    var n := c.index - 1;
    var all := kids[n].tree.recs + [RecAt(k)];
    var grown := Merged(kids, n, LeftLeaf(all), RightLeaf(all));
    FullPut(Top, kids, n, k, c);
    RunAdd(ops, RecAt(k), c);
    LadderGrows(kids, k);
    SmallGrows(kids, k, c);
    BehindGrows(Top, kids, k);
    f, kids := RightNode(grown, Up(k, true), c);
    ops, k := ops + [Add(RecAt(k))], Up(k, true);
  }

  lemma {:induction false} SmallLast(kids: seq<Kid>, c: Caps)
    requires kids != [] && Small(kids, c)
    ensures kids[|kids| - 1].tree.Tip? && |kids[|kids| - 1].tree.recs| <= c.leaf
  {
  }

  /** The right half of a node that has split. */
  lemma {:induction false} RightNode(grown: seq<Kid>, k: Key, c: Caps) returns (f: Frame, kids: seq<Kid>)
    requires |grown| == c.index + 1 && c.index >= 3
    requires Ladder(grown, k.ino) && Small(grown, c) && Behind(Top, grown, c.index, k)
    ensures f == Under(grown[0].key, grown[..|grown| / 2], grown[|grown| / 2].key) && kids == grown[|grown| / 2..]
    ensures 2 <= |kids| < c.index && Behind(f, kids, |kids| - 1, k) && Small(kids, c)
    ensures Ladder(kids, k.ino) && f.b == kids[0].key && f.left != [] && Ladder(f.left, f.b.ino)
  {
    hide Rung, InosUnder, Ladder;
    var h := |grown| / 2;
    assert grown == grown[..h] + grown[h..];
    LadderParts(grown[..h], grown[h..], k.ino);
    LadderKey(grown[h..], k.ino, 0);
    f, kids := Under(grown[0].key, grown[..h], grown[h].key), grown[h..];
  }

  // ----- clearing the first record of the right node

  lemma {:induction false} ClearAt(kids: seq<Kid>, ino: nat, i: nat)
    requires i < |kids|
    ensures ClearAll(kids, ino)[i] == ClearKid(kids[i], ino)
  {
    if i < |kids| - 1 {
      ClearAt(kids[..|kids| - 1], ino, i);
    }
  }

  lemma {:induction false} WithoutSame(recs: seq<Extent>, ino: nat)
    requires forall i | 0 <= i < |recs| :: recs[i].key.ino != ino
    ensures Without(recs, ino) == recs
  {
    if recs != [] {
      WithoutSame(recs[..|recs| - 1], ino);
    }
  }

  lemma {:induction false} WithoutFirst(recs: seq<Extent>)
    requires recs != [] && Ascending(recs)
    ensures Without(recs, recs[0].key.ino) == recs[1..]
  {
    var ino := recs[0].key.ino;
    assert recs == [recs[0]] + recs[1..] && [recs[0]][..0] == [];
    WithoutConcat([recs[0]], recs[1..], ino);
    WithoutSame(recs[1..], ino);
  }

  lemma {:induction false} ClearSame(kids: seq<Kid>, ino: nat)
    requires forall i | 0 <= i < |kids| :: InosUnder(kids[i], ino)
    ensures ClearAll(kids, ino) == kids
  {
    forall i | 0 <= i < |kids| ensures ClearAll(kids, ino)[i] == kids[i] {
      ClearAt(kids, ino, i);
      WithoutSame(kids[i].tree.recs, ino);
    }
  }

  lemma {:induction false} ClearFirst(kids: seq<Kid>, hi: nat)
    requires kids != [] && Ladder(kids, hi)
    ensures ClearAll(kids, kids[0].key.ino) == WithLeaf(kids, 0, kids[0].tree.recs[1..])
  {
    var ino := kids[0].key.ino;
    assert Rung(kids[0]);
    ClearAt(kids, ino, 0);
    WithoutFirst(kids[0].tree.recs);
    forall i | 1 <= i < |kids| ensures ClearAll(kids, ino)[i] == kids[i] {
      ClearAt(kids, ino, i);
      LadderKey(kids, hi, i);
      assert Rung(kids[i]);
      WithoutSame(kids[i].tree.recs, ino);
    }
  }

  lemma {:induction false} ClearFramed(f: Frame, kids: seq<Kid>, kids': seq<Kid>, ino: nat)
    requires f.Under? && ClearAll(f.left, ino) == f.left && ClearAll(kids, ino) == kids'
    ensures Clear(Framed(f, kids), ino) == Framed(f, kids')
  {
    hide ClearAll;
    var root := Framed(f, kids).kids;
    ClearAt(root, ino, 0);
    ClearAt(root, ino, 1);
    assert ClearAll(root, ino) == Framed(f, kids').kids;
  }

  lemma {:induction false} RunDrop(ops: seq<Op>, ino: nat, c: Caps)
    ensures Run(ops + [Drop(ino)], c) == Clear(Run(ops, c), ino)
  {
    assert (ops + [Drop(ino)])[..|ops|] == ops;
  }

  lemma {:induction false} DropFirst(ops: seq<Op>, f: Frame, kids: seq<Kid>, hi: nat, c: Caps)
    requires f.Under? && kids != [] && Run(ops, c) == Framed(f, kids)
    requires Ladder(kids, hi) && f.b == kids[0].key && Ladder(f.left, f.b.ino)
    ensures Run(ops + [Drop(f.b.ino)], c) == Framed(f, WithLeaf(kids, 0, kids[0].tree.recs[1..]))
  {
    hide Run, Clear, ClearAll, Framed;
    RunDrop(ops, f.b.ino, c);
    ClearSame(f.left, f.b.ino);
    ClearFirst(kids, hi);
    assert Rung(kids[0]);
    ClearFramed(f, kids, WithLeaf(kids, 0, kids[0].tree.recs[1..]), f.b.ino);
  }

  // ----- raising the first separator of the right node

  /** A key behind the records of the first leaf and before the second. */
  lemma {:induction false} BehindFirst(f: Frame, kids: seq<Kid>, hi: nat) returns (k: Key)
    requires f.Under? && |kids| >= 2 && Ladder(kids, hi) && f.b == kids[0].key
    ensures var rest := kids[0].tree.recs[1..];
      Behind(f, WithLeaf(kids, 0, rest), 0, k) && Over(rest + [RecAt(k)], f.b)
  {
    var recs := kids[0].tree.recs;
    assert Rung(kids[0]);
    var last := recs[|recs| - 1].key;
    k := Up(last, false);
    var rest := recs[1..];
    assert forall i | 0 <= i < |rest| :: rest[i] == recs[i + 1] && recs[0].key.ino < recs[i + 1].key.ino;
    forall i | 0 <= i < |rest| ensures Lt(rest[i].key, k) {
      assert i + 1 < |recs| - 1 ==> recs[i + 1].key.ino < last.ino;
    }
    assert |recs| > 1 ==> recs[0].key.ino < last.ino;
    forall i | 0 < i < |kids| ensures k.ino < kids[i].key.ino {
      assert InosUnder(kids[0], kids[i].key.ino);
    }
  }

  /** The key below the first separator goes to the first leaf, before its records. */
  lemma {:induction false} PutFirst(ops: seq<Op>, f: Frame, kids: seq<Kid>, c: Caps)
    requires f.Under? && kids != [] && Run(ops, c) == Framed(f, kids) && kids[0].tree.Tip?
    requires Over(kids[0].tree.recs, f.b) && |kids[0].tree.recs| < c.leaf
    requires forall i | 1 <= i < |kids| :: Lt(f.b, kids[i].key)
    ensures Run(ops + [Add(RecAt(f.b))], c) == Framed(f, WithLeaf(kids, 0, [RecAt(f.b)] + kids[0].tree.recs))
  {
    var recs, e := kids[0].tree.recs, RecAt(f.b);
    StoredAt(recs, e, 0);
    assert recs[..0] + [e] + recs[0..] == [e] + recs;
    TipRoom(recs, e, [e] + recs, c);
    ForkPut(kids, 0, e, c, One(Tip([e] + recs)));
    FramedPut(f, kids, e, WithLeaf(kids, 0, [e] + recs), c);
    RunAdd(ops, e, c);
  }

  /** Drop the first record of the right node, refill its leaf until it splits, and insert the record again: it now lies
      below the node's first separator. */
  lemma {:induction false} Raise(ops: seq<Op>, f: Frame, kids: seq<Kid>, k: Key, c: Caps)
    returns (ops': seq<Op>, kids': seq<Kid>)
    requires f.Under? && Run(ops, c) == Framed(f, kids) && 2 <= |kids| < c.index && c.leaf >= 2
    requires Ladder(kids, k.ino) && Small(kids, c) && f.b == kids[0].key && Ladder(f.left, f.b.ino)
    requires Behind(f, kids, |kids| - 1, k)
    ensures Run(ops', c) == Framed(f, kids') && |kids'| == |kids| + 1 && Behind(f, kids', |kids|, k)
    ensures kids'[0].tree.Tip? && RecAt(f.b) in kids'[0].tree.recs && Lt(f.b, kids'[0].key)
    ensures Beyond(kids', f.b) && |kids'[|kids|].tree.recs| <= c.leaf
  {
    hide Run, Ladder;
    assert Rung(kids[0]) by {
      LadderFirst(kids, k.ino);
    }
    var rest := kids[0].tree.recs[1..];
    var kids1 := WithLeaf(kids, 0, rest);
    DropFirst(ops, f, kids, k.ino, c);
    var k1 := BehindFirst(f, kids, k.ino);
    var ops2, recs, k2 := Fill(ops + [Drop(f.b.ino)], f, kids1, 0, k1, c, false, f.b);
    var kids2, all := WithLeaf(kids1, 0, recs), recs + [RecAt(k2)];
    FullRoom(ops2, f, kids2, 0, k2, c);
    var l, r := LeftLeaf(all), RightLeaf(all);
    var kids3 := Merged(kids2, 0, l, r);
    assert kids3 == [l, r] + kids[1..];
    RaisedBeyond(kids, k, f.b, all);
    PutFirst(ops2 + [Add(RecAt(k2))], f, kids3, c);
    kids' := WithLeaf(kids3, 0, [RecAt(f.b)] + l.tree.recs);
    ops' := ops2 + [Add(RecAt(k2))] + [Add(RecAt(f.b))];
    assert ([RecAt(f.b)] + l.tree.recs)[0] == RecAt(f.b);
    assert kids'[|kids|] == kids[|kids| - 1];
  }

  lemma {:induction false} LadderFirst(kids: seq<Kid>, hi: nat)
    requires kids != [] && Ladder(kids, hi)
    ensures Rung(kids[0])
  {
  }

  lemma {:induction false} RaisedBeyond(kids: seq<Kid>, k: Key, lo: Key, all: seq<Extent>)
    requires |kids| >= 2 && Ladder(kids, k.ino) && lo == kids[0].key && |all| >= 2 && Over(all, lo)
    ensures var grown := [LeftLeaf(all), RightLeaf(all)] + kids[1..];
      Beyond(grown, lo) && Over(grown[0].tree.recs, lo) && Lt(lo, grown[0].key)
  {
    var grown, n := [LeftLeaf(all), RightLeaf(all)] + kids[1..], |kids| - 1;
    forall i | 1 <= i < |kids| ensures Lt(lo, kids[i].key) && grown[i + 1] == kids[i] {
      LadderKey(kids, k.ino, i);
    }
    assert Rung(kids[n]);
    var recs := kids[n].tree.recs;
    forall i | 0 <= i < |recs| ensures Lt(lo, recs[i].key) {
      assert i > 0 ==> recs[0].key.ino < recs[i].key.ino;
    }
    var a := all[..|all| / 2];
    assert forall i | 0 <= i < |a| :: a[i] == all[i];
  }

  // ----- the right node splits

  /** The last insert splits the right node, whose first separator is handed up. */
  lemma {:induction false} HandsUp(ops: seq<Op>, f: Frame, kids: seq<Kid>, k: Key, c: Caps)
    returns (first: seq<Kid>, second: Kid)
    requires f.Under? && Run(ops, c) == Framed(f, kids) && |kids| == c.index >= 3 && c.leaf >= 1
    requires Behind(f, kids, c.index - 1, k) && |kids[c.index - 1].tree.recs| == c.leaf
    requires Beyond(kids, f.b) && Lt(f.b, k)
    ensures first != [] && first[0] == kids[0] && Lt(f.b, second.key)
    ensures Run(ops + [Add(RecAt(k))], c)
      == Fork([Kid(f.a, Fork(f.left)), Kid(kids[0].key, Fork(first)), second])
  {
    hide Run;
    var n := c.index - 1;
    var all := kids[n].tree.recs + [RecAt(k)];
    var grown := Merged(kids, n, LeftLeaf(all), RightLeaf(all));
    FullPut(f, kids, n, k, c);
    BeyondGrows(kids, k, f.b);
    var h := |grown| / 2;
    first, second := grown[..h], Kid(grown[h].key, Fork(grown[h..]));
    var l, root := Kid(grown[0].key, Fork(first)), Framed(f, kids).kids;
    ForkPut(root, 1, RecAt(k), c, Two(l, second));
    assert Merged(root, 1, l, second) == [root[0], l, second];
    RunAdd(ops, RecAt(k), c);
  }

  /** The record below the handed-up key is stored there, and looked for left of it. */
  lemma {:induction false} LeftBehind(a: Key, left: seq<Kid>, key: Key, first: seq<Kid>, second: Kid, b: Key)
    requires left != [] && first != [] && Ladder(left, b.ino) && Lt(b, key) && Lt(b, second.key)
    requires first[0].tree.Tip? && RecAt(b) in first[0].tree.recs
    ensures var t := Fork([Kid(a, Fork(left)), Kid(key, Fork(first)), second]);
      RecAt(b) in Records(t) && Find(t, b) == None
  {
    var kids := [Kid(a, Fork(left)), Kid(key, Fork(first)), second];
    AroundKid(kids, 1);
    AroundKid(first, 0);
    ForkRecords(first);
    ForkRecords(kids);
    SlotIs(kids, b, 0);
    FindAt(kids, b);
    FindAt(left, b);
    var s := Slot(left, b);
    assert InosUnder(left[s], b.ino);
    GetNone(left[s].tree.recs, b);
  }

  /** After the run a record is stored that a lookup does not find. */
  ghost predicate Loses(ops: seq<Op>, r: Extent, c: Caps) {
    r in Records(Run(ops, c)) && Find(Run(ops, c), r.key) == None
  }

  lemma {:induction false} LosingRun(c: Caps) returns (ops: seq<Op>, r: Extent)
    requires c.leaf >= 2 && c.index >= 3
    ensures Loses(ops, r, c)
  {
    hide Run, Ladder, Behind, Framed;
    var f, kids, k;
    ops, f, kids, k := TwoForks(c);
    r := RecAt(f.b);
    LadderKey(kids, k.ino, 0);
    ops, kids := Raise(ops, f, kids, k, c);
    ops, kids, k := GrowRight(ops, f, kids, k, c, f.b);
    var first, second := HandsUp(ops, f, kids, k, c);
    LeftBehind(f.a, f.left, kids[0].key, first, second, f.b);
    ops := ops + [Add(RecAt(k))];
  }

  /** With any capacities of at least two records and three entries, some run of inserts and one clear stores a record
      that a lookup does not find. */
  lemma {:induction false} KeyLost(c: Caps)
    requires c.leaf >= 2 && c.index >= 3
    ensures exists ops, r :: Loses(ops, r, c) && !SafeRun(ops, c)
  {
    var ops, r := LosingRun(c);
    StoredNeedsSafety(ops, c, r);
  }

  /** On safe runs whatever is stored is found. */
  lemma {:induction false} StoredNeedsSafety(ops: seq<Op>, c: Caps, r: Extent)
    requires r in Records(Run(ops, c)) && Find(Run(ops, c), r.key) == None
    ensures !SafeRun(ops, c)
  {
    if SafeRun(ops, c) {
      RunRefines(ops, c, r.key);
    }
  }

  // ----- a key that falls

  function Rec(ino: nat, off: nat): Extent {
    RecAt(Key(ino, off))
  }

  function Leaf1(ino: nat, off: nat): Tree {
    Tip([Rec(ino, off)])
  }

  /** One record to a leaf, two entries to an index node: fewer than the blocks of the program hold. */
  const TINY := Caps(1, 2)

  function At(n: nat): Key {
    Key(n, 0)
  }

  /** Two leaves that were cleared, below separators 5 and 30. */
  function Cleared(): Kid {
    Kid(At(5), Fork([Kid(At(5), Tip([])), Kid(At(30), Tip([]))]))
  }

  /** Entry 50 leads to a node whose slot-0 separator is 11. */
  function Fallen(): Tree {
    Fork([Cleared(), Kid(At(50), Fork([Kid(At(11), Leaf1(50, 0)), Kid(At(60), Leaf1(60, 0))]))])
  }

  function Halves(): (Kid, Kid) {
    (Kid(At(11), Fork([Kid(At(11), Leaf1(50, 0))])),
     Kid(At(60), Fork([Kid(At(60), Leaf1(60, 0)), Kid(At(70), Leaf1(70, 0))])))
  }

  lemma {:induction false} FallenHalves()
    ensures Put(Fallen().kids[1].tree, Rec(70, 0), TINY) == Two(Halves().0, Halves().1)
  {
    var right, all := Fallen().kids[1].tree.kids, [Rec(60, 0), Rec(70, 0)];
    assert all[..1] == [Rec(60, 0)] && all[1..] == [Rec(70, 0)];
    StoredAt(all[..1], Rec(70, 0), 1);
    TipSplit(all[..1], Rec(70, 0), all, TINY);
    var l, r := Kid(At(60), Leaf1(60, 0)), Kid(At(70), Leaf1(70, 0));
    ForkPut(right, 1, Rec(70, 0), TINY, Two(l, r));
    var merged := Merged(right, 1, l, r);
    assert merged == [right[0], l, r] && merged[..1] == [right[0]] && merged[1..] == [l, r];
  }

  lemma {:induction false} FallenInsert()
    ensures Insert(Fallen(), Rec(70, 0), TINY)
      == Fork([Kid(At(5), Fork([Cleared()])), Kid(At(11), Fork([Halves().0, Halves().1]))])
  {
    FallenHalves();
    hide Put;
    var kids, l, r := Fallen().kids, Halves().0, Halves().1;
    ForkPut(kids, 1, Rec(70, 0), TINY, Two(l, r));
    var merged := Merged(kids, 1, l, r);
    assert merged == [Cleared(), l, r] && merged[..1] == [Cleared()] && merged[1..] == [l, r];
  }

  /** A node over two leaves. */
  lemma {:induction false} OverLeaves(a: Key, x: seq<Extent>, b: Key, y: seq<Extent>)
    requires Lt(a, b) && SortedRecs(x) && SortedRecs(y) && AllBelow(x, b) && NoneBelow(y, b)
    ensures var kids := [Kid(a, Tip(x)), Kid(b, Tip(y))];
      Strict(Fork(kids)) && MarksAll(kids) == {a, b} && RecordsAll(kids) == x + y
  {
    hide StrictAll, MarksAll, RecordsAll, SortedRecs, AllBelow, NoneBelow;
    var p, q := Kid(a, Tip(x)), Kid(b, Tip(y));
    assert Marks(p.tree) == {} && Marks(q.tree) == {} && Records(p.tree) == x && Records(q.tree) == y;
    AllOfOne(p);
    AllOfOne(q);
    TwoStrict(p, q);
    assert [p, q] == [p] + [q];
    AllOfConcat([p], [q]);
  }

  /** A node over two index nodes. */
  lemma {:induction false} OverForks(a: Key, l: seq<Kid>, b: Key, r: seq<Kid>)
    requires Strict(Fork(l)) && Strict(Fork(r)) && Lt(a, b)
    requires MarksBelow(MarksAll(l), b) && AllBelow(RecordsAll(l), b) && NoneBelow(RecordsAll(r), b)
    ensures Strict(Fork([Kid(a, Fork(l)), Kid(b, Fork(r))]))
  {
    var p, q := Kid(a, Fork(l)), Kid(b, Fork(r));
    assert Marks(p.tree) == MarksAll(l) && Records(p.tree) == RecordsAll(l) && Records(q.tree) == RecordsAll(r);
    AllOfOne(p);
    AllOfOne(q);
    TwoStrict(p, q);
    hide StrictAll;
  }

  lemma {:induction false} FallenStrict()
    ensures Strict(Fallen())
  {
    hide Strict, MarksAll, RecordsAll;
    OverLeaves(At(5), [], At(30), []);
    OverLeaves(At(11), [Rec(50, 0)], At(60), [Rec(60, 0)]);
    assert [Rec(50, 0)] + [Rec(60, 0)] == [Rec(50, 0), Rec(60, 0)];
    OverForks(At(5), Cleared().tree.kids, At(50), Fallen().kids[1].tree.kids);
  }

  lemma {:induction false} FallenUnsafe()
    ensures !SafePut(Fallen(), Rec(70, 0), TINY) && !Rising(Fallen(), Rec(70, 0), TINY)
  {
    FallenHalves();
    var kids := Fallen().kids;
    SlotIs(kids, At(70), 1);
    assert PutKid(kids[1], Rec(70, 0), TINY) == Two(Halves().0, Halves().1);
    assert kids[..1] == [Cleared()];
    AllOfOne(Cleared());
    FirstMark(Cleared().tree.kids);
    assert Cleared().tree.kids == [Cleared().tree.kids[0]] + [Cleared().tree.kids[1]];
    AllOfConcat([Cleared().tree.kids[0]], [Cleared().tree.kids[1]]);
    AllOfOne(Cleared().tree.kids[1]);
    assert At(30) in MarksAll(kids[..1]);
  }

  /** Where a key handed up falls below the one it replaces, the insert may be unsafe and yet lose nothing: only
      separators of empty leaves lie out of order. */
  lemma {:induction false} UnsafeYetFound()
    ensures Strict(Fallen()) && !SafePut(Fallen(), Rec(70, 0), TINY)
    ensures AllFound(Insert(Fallen(), Rec(70, 0), TINY))
  {
    hide Insert, Find, Get, Records, Fallen, SafePut, Strict, AllFound;
    FallenStrict();
    FallenUnsafe();
    InsertUpdates(Fallen(), Rec(70, 0), TINY);
    FallenRecords();
    FallenFinds();
    ThreeFound(Insert(Fallen(), Rec(70, 0), TINY), Rec(50, 0), Rec(60, 0), Rec(70, 0));
  }

  lemma {:induction false} ThreeFound(t: Tree, a: Extent, b: Extent, c: Extent)
    requires Records(t) == [a, b, c] && SortedRecs([a, b, c])
    requires Find(t, a.key) == Some(a) && Find(t, b.key) == Some(b) && Find(t, c.key) == Some(c)
    ensures AllFound(t)
  {
    var s := [a, b, c];
    forall k ensures Find(t, k) == Get(s, k) {
      hide Find, Get;
      if k == a.key {
        GetAt(s, 0);
      } else if k == b.key {
        GetAt(s, 1);
      } else if k == c.key {
        GetAt(s, 2);
      } else {
        GetNone(s, k);
        MissBelow(t, k);
      }
    }
  }

  lemma {:induction false} TwoRecords(p: Kid, q: Kid)
    ensures RecordsAll([p, q]) == Records(p.tree) + Records(q.tree)
  {
    assert [p, q] == [p] + [q];
    AllOfConcat([p], [q]);
    AllOfOne(p);
    AllOfOne(q);
  }

  lemma {:induction false} FallenParts()
    ensures RecordsAll([Cleared()]) == []
    ensures Records(Halves().0.tree) == [Rec(50, 0)] && Records(Halves().1.tree) == [Rec(60, 0), Rec(70, 0)]
  {
    AllOfOne(Cleared());
    var p, r := Cleared().tree.kids, Halves().1.tree.kids;
    TwoRecords(p[0], p[1]);
    AllOfOne(Halves().0.tree.kids[0]);
    TwoRecords(r[0], r[1]);
    assert Records(Cleared().tree) == RecordsAll(p) && p == [p[0], p[1]] && r == [r[0], r[1]];
  }

  lemma {:induction false} FallenRecords()
    ensures Records(Insert(Fallen(), Rec(70, 0), TINY)) == [Rec(50, 0), Rec(60, 0), Rec(70, 0)]
  {
    FallenInsert();
    FallenParts();
    var l, r := Halves().0, Halves().1;
    var a, b := Kid(At(5), Fork([Cleared()])), Kid(At(11), Fork([l, r]));
    TwoRecords(a, b);
    TwoRecords(l, r);
    ForkRecords([Cleared()]);
    ForkRecords([l, r]);
    ForkRecords([a, b]);
    hide Cleared, Halves, Records, RecordsAll, Insert, Rec;
  }

  lemma {:induction false} FallenFinds()
    ensures var t := Insert(Fallen(), Rec(70, 0), TINY);
      && Find(t, At(50)) == Some(Rec(50, 0)) && Find(t, At(60)) == Some(Rec(60, 0))
      && Find(t, At(70)) == Some(Rec(70, 0))
  {
    FallenInsert();
    var kids := [Kid(At(5), Fork([Cleared()])), Kid(At(11), Fork([Halves().0, Halves().1]))];
    InRight(kids, At(50), 0, 0);
    InRight(kids, At(60), 1, 0);
    InRight(kids, At(70), 1, 1);
  }

  /** The way of a key through the right half. */
  lemma {:induction false} InRight(kids: seq<Kid>, k: Key, i: nat, j: nat)
    requires kids == [Kid(At(5), Fork([Cleared()])), Kid(At(11), Fork([Halves().0, Halves().1]))]
    requires !Lt(k, At(11)) && i < 2 && (i == 0 <==> Lt(k, At(60))) && j < |kids[1].tree.kids[i].tree.kids|
    requires i == 1 ==> (j == 0 <==> Lt(k, At(70)))
    ensures Find(Fork(kids), k) == Find(kids[1].tree.kids[i].tree.kids[j].tree, k)
  {
    SlotIs(kids, k, 1);
    FindAt(kids, k);
    var inner := kids[1].tree.kids;
    SlotIs(inner, k, i);
    FindAt(inner, k);
    var last := inner[i].tree.kids;
    SlotIs(last, k, j);
    FindAt(last, k);
  }
}
