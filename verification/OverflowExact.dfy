/** When an insert leaves every stored record to be found: the keys handed up, and the lookups of the whole tree. */
module OverflowExact {
  import opened Blocks
  import opened OverflowNodes
  import opened OverflowShape
  import opened OverflowInsert
  import opened OverflowValues
  import opened OverflowRuns

  /** Every lookup gives what the leaf chain holds. */
  ghost predicate AllFound(t: Tree) {
    forall k :: Find(t, k) == Get(Records(t), k)
  }

  /** A lookup in the outcome of an insert: in two halves, the right key decides. */
  function FindOut(x: Outcome, k: Key): Option<Extent> {
    match x
    case One(t) => Find(t, k)
    case Two(l, r) => if Lt(k, r.key) then Find(l.tree, k) else Find(r.tree, k)
  }

  /** The record is stored and not found. */
  ghost predicate LostOut(x: Outcome, q: Extent) {
    q in OutRecords(x) && FindOut(x, q.key) == None
  }

  /** No split hands up a key below the one it replaces, slot 0 apart. */
  ghost predicate Rising(t: Tree, e: Extent, c: Caps) {
    match t
    case Tip(recs) => true
    case Fork(kids) =>
      kids == []
      || var s := Slot(kids, e.key);
         && RisingKid(kids[s], e, c)
         && (s > 0 && PutKid(kids[s], e, c).Two? ==> !Lt(PutKid(kids[s], e, c).left.key, kids[s].key))
  }

  ghost predicate RisingKid(k: Kid, e: Extent, c: Caps) {
    Rising(k.tree, e, c)
  }

  // ----- keys in order

  ghost predicate KeysAscend(kids: seq<Kid>) {
    forall i, j | 0 <= i < j < |kids| :: Lt(kids[i].key, kids[j].key)
  }

  lemma {:induction false} StrictAscends(kids: seq<Kid>)
    requires StrictAll(kids)
    ensures KeysAscend(kids)
  {
    forall i, j | 0 <= i < j < |kids| ensures Lt(kids[i].key, kids[j].key) {
      assert SplitsAt(kids, j);
      KeyBelow(kids[..j], i, kids[j].key);
    }
  }

  lemma {:induction false} MergedAscends(kids: seq<Kid>, s: nat, l: Kid, r: Kid)
    requires KeysAscend(kids) && InSlot(kids, s, Two(l, r)) && Lt(l.key, r.key)
    requires s > 0 ==> !Lt(l.key, kids[s].key)
    ensures KeysAscend(Merged(kids, s, l, r))
  {
    var all := Merged(kids, s, l, r);
    assert r.key in OutMarks(Two(l, r));
    forall i, j | 0 <= i < j < |all| ensures Lt(all[i].key, all[j].key) {
      assert i < s ==> all[i] == kids[i] && Lt(kids[i].key, kids[s].key);
      assert i > s + 1 ==> all[i] == kids[i - 1];
      assert j > s + 1 ==> all[j] == kids[j - 1] && (j - 1 == s + 1 || Lt(kids[s + 1].key, kids[j - 1].key));
    }
  }

  /** Under rising keys the two halves of a node are in order. */
  lemma {:induction false} PutAscends(t: Tree, e: Extent, c: Caps)
    requires Strict(t) && Rising(t, e, c) && Put(t, e, c).Two?
    ensures Lt(Put(t, e, c).left.key, Put(t, e, c).right.key)
  {
    match t
    case Tip(recs) => TipAscends(recs, e, c);
    case Fork(kids) => SettleAscends(kids, e, c);
  }

  lemma {:induction false} TipAscends(recs: seq<Extent>, e: Extent, c: Caps)
    requires SortedRecs(recs) && PutTip(recs, e, c).Two?
    ensures Lt(PutTip(recs, e, c).left.key, PutTip(recs, e, c).right.key)
  {
    StoredSorted(recs, e);
    PutTipRecords(recs, e, c);
    hide Stored;
    SortedHalves(Stored(recs, e), |Stored(recs, e)| / 2);
  }

  /** The entries that the parent on the route ends up with are in order. */
  lemma {:induction false} RouteAscends(kids: seq<Kid>, e: Extent, c: Caps)
    requires StrictAll(kids) && Rising(Fork(kids), e, c)
    ensures var s := Slot(kids, e.key); var x := PutKid(kids[s], e, c);
      InSlot(kids, s, x) && (x.Two? ==> Lt(x.left.key, x.right.key) && KeysAscend(Merged(kids, s, x.left, x.right)))
    decreases kids, 0
  {
    var s := Slot(kids, e.key);
    PutInSlot(kids, e, c);
    StrictAscends(kids);
    assert StrictKid(kids[s]);
    if PutKid(kids[s], e, c).Two? {
      KidAscends(kids[s], e, c);
      MergedAscends(kids, s, PutKid(kids[s], e, c).left, PutKid(kids[s], e, c).right);
    }
  }

  lemma {:induction false} KidAscends(k: Kid, e: Extent, c: Caps)
    requires StrictKid(k) && RisingKid(k, e, c) && PutKid(k, e, c).Two?
    ensures Lt(PutKid(k, e, c).left.key, PutKid(k, e, c).right.key)
  {
    PutAscends(k.tree, e, c);
  }

  lemma {:induction false} SettleAscends(kids: seq<Kid>, e: Extent, c: Caps)
    requires StrictAll(kids) && Rising(Fork(kids), e, c) && Put(Fork(kids), e, c).Two?
    ensures Lt(Put(Fork(kids), e, c).left.key, Put(Fork(kids), e, c).right.key)
    decreases kids, 1
  {
    RouteAscends(kids, e, c);
    var s := Slot(kids, e.key);
    var x := PutKid(kids[s], e, c);
    assert Put(Fork(kids), e, c) == Settle(kids, s, x, c);
  }

  // ----- lookups in halves

  lemma {:induction false} SlotIs(kids: seq<Kid>, k: Key, s: nat)
    requires s < |kids| && (s > 0 ==> !Lt(k, kids[s].key)) && forall i | s < i < |kids| :: Lt(k, kids[i].key)
    ensures Slot(kids, k) == s
  {
  }

  /** Looking in the half that the right key names is looking in the whole node. */
  lemma {:induction false} FindHalves(all: seq<Kid>, n: nat, k: Key)
    requires KeysAscend(all) && 0 < n < |all|
    ensures FindOut(Two(Kid(all[0].key, Fork(all[..n])), Kid(all[n].key, Fork(all[n..]))), k) == Find(Fork(all), k)
  {
    var s := Slot(all, k);
    FindAt(all, k);
    if Lt(k, all[n].key) {
      assert s < n;
      SlotIs(all[..n], k, s);
      FindAt(all[..n], k);
    } else {
      assert s >= n;
      SlotIs(all[n..], k, s - n);
      FindAt(all[n..], k);
      assert all[n..][s - n] == all[s];
    }
  }

  // ----- a lost record stays lost on the way up

  lemma {:induction false} LostOne(kids: seq<Kid>, s: nat, t: Tree, q: Extent)
    requires StrictAll(kids) && InSlot(kids, s, One(t)) && LostOut(One(t), q)
    ensures Find(Fork(kids[s := Kid(kids[s].key, t)]), q.key) == None
  {
    var kids' := kids[s := Kid(kids[s].key, t)];
    StrictAscends(kids);
    var i :| 0 <= i < |Records(t)| && Records(t)[i] == q;
    forall j | s < j < |kids'| ensures Lt(q.key, kids'[j].key) {
      assert kids'[j] == kids[j];
      assert j > s + 1 ==> Lt(kids[s + 1].key, kids[j].key);
    }
    SlotIs(kids', q.key, s);
    FindAt(kids', q.key);
  }

  lemma {:induction false} LostTwo(kids: seq<Kid>, s: nat, l: Kid, r: Kid, q: Extent)
    requires StrictAll(kids) && InSlot(kids, s, Two(l, r)) && LostOut(Two(l, r), q)
    requires KeysAscend(Merged(kids, s, l, r))
    ensures Find(Fork(Merged(kids, s, l, r)), q.key) == None
  {
    var all := Merged(kids, s, l, r);
    var i :| 0 <= i < |OutRecords(Two(l, r))| && OutRecords(Two(l, r))[i] == q;
    StrictAscends(kids);
    BelowNext(kids, s, l, r, q.key);
    var n := Slot(all, q.key);
    FindAt(all, q.key);
    if n < s {
      StrictAround(kids, s);
      OtherSide(RecordsAll(kids[..s]), kids[s].key, q.key);
      MissIn(kids[..s], n, q.key);
      assert all[n] == kids[..s][n];
    } else if n == s {
      assert all[n] == l && Lt(q.key, all[s + 1].key);
    } else {
      assert all[n] == r && !Lt(q.key, r.key);
    }
  }

  /** The slot of a key below the next separator is not behind the two entries. */
  lemma {:induction false} BelowNext(kids: seq<Kid>, s: nat, l: Kid, r: Kid, k: Key)
    requires KeysAscend(kids) && s < |kids| && (s + 1 < |kids| ==> Lt(k, kids[s + 1].key))
    ensures Slot(Merged(kids, s, l, r), k) <= s + 1
  {
    var all := Merged(kids, s, l, r);
    forall j | s + 1 < j < |all| ensures Lt(k, all[j].key) {
      assert all[j] == kids[j - 1] && (j - 1 == s + 1 || Lt(kids[s + 1].key, kids[j - 1].key));
    }
  }

  /** What is lost below is lost in the node above, whole or in halves. */
  lemma {:induction false} LostAbove(kids: seq<Kid>, e: Extent, c: Caps, q: Extent)
    requires StrictAll(kids) && Rising(Fork(kids), e, c)
    requires var s := Slot(kids, e.key); LostOut(PutKid(kids[s], e, c), q)
    ensures LostOut(Put(Fork(kids), e, c), q)
  {
    var s := Slot(kids, e.key);
    var x := PutKid(kids[s], e, c);
    RouteAscends(kids, e, c);
    SettleParts(kids, s, x, c);
    match x
    case One(t) => LostOne(kids, s, t, q);
    case Two(l, r) =>
      LostTwo(kids, s, l, r, q);
      LostSettled(kids, s, l, r, c, q.key);
  }

  lemma {:induction false} LostSettled(kids: seq<Kid>, s: nat, l: Kid, r: Kid, c: Caps, k: Key)
    requires s < |kids| && KeysAscend(Merged(kids, s, l, r)) && Find(Fork(Merged(kids, s, l, r)), k) == None
    ensures FindOut(Settle(kids, s, Two(l, r), c), k) == None
  {
    var all := Merged(kids, s, l, r);
    if |all| > c.index {
      FindHalves(all, |all| / 2, k);
    }
  }

  /** A key that does not fit loses a record. */
  lemma {:induction false} UnsafeLoses(t: Tree, e: Extent, c: Caps) returns (q: Extent)
    requires Strict(t) && Rising(t, e, c) && !SafePut(t, e, c)
    ensures LostOut(Put(t, e, c), q)
  {
    var kids := t.kids;
    var s := Slot(kids, e.key);
    var x := PutKid(kids[s], e, c);
    assert StrictKid(kids[s]);
    if !SafeKid(kids[s], e, c) {
      q := UnsafeKidLoses(kids[s], e, c);
      LostAbove(kids, e, c, q);
    } else {
      PutKidIff(kids[s], e, c);
      q := UnfitRecord(kids, s, x.left);
      RouteAscends(kids, e, c);
      UnfitLoses(kids, s, x.left, x.right, q);
      LostSettled(kids, s, x.left, x.right, c, q.key);
      SettleParts(kids, s, x, c);
    }
  }

  /** The record below a key that does not fit, when the key is not below the one it replaces. */
  lemma {:induction false} UnfitRecord(kids: seq<Kid>, s: nat, l: Kid) returns (q: Extent)
    requires StrictAll(kids) && 0 < s < |kids| && !Lt(l.key, kids[s].key) && !Handed(kids[..s], l)
    ensures q in Records(l.tree) && Lt(q.key, l.key)
  {
    StrictAround(kids, s);
    if kids[s].key != l.key {
      SidesFurther(kids[..s], kids[s].key, l.key);
    }
    AllOfOne(l);
    var i :| 0 <= i < |Records(l.tree)| && Lt(Records(l.tree)[i].key, l.key);
    q := Records(l.tree)[i];
  }

  lemma {:induction false} UnsafeKidLoses(k: Kid, e: Extent, c: Caps) returns (q: Extent)
    requires StrictKid(k) && RisingKid(k, e, c) && !SafeKid(k, e, c)
    ensures LostOut(PutKid(k, e, c), q)
  {
    q := UnsafeLoses(k.tree, e, c);
  }

  /** From any well-formed tree: as long as no key handed up falls below the one it replaces, every lookup after
      the insert is right exactly when each key handed up fits. */
  lemma {:induction false} InsertExact(t: Tree, e: Extent, c: Caps)
    requires Strict(t) && Rising(t, e, c)
    ensures SafePut(t, e, c) <==> AllFound(Insert(t, e, c))
  {
    var t' := Insert(t, e, c);
    if SafePut(t, e, c) {
      InsertIff(t, e, c);
      forall k ensures Find(t', k) == Get(Records(t'), k) {
        FindExact(t', k);
      }
    } else {
      var q := UnsafeLoses(t, e, c);
      InsertRecords(t, e, c);
      TopFind(t, e, c, q.key);
      InsertUpdates(t, e, c);
      var i :| 0 <= i < |Records(t')| && Records(t')[i] == q;
      GetAt(Records(t'), i);
      assert Find(t', q.key) != Get(Records(t'), q.key);
    }
  }

  lemma {:induction false} TopFind(t: Tree, e: Extent, c: Caps, k: Key)
    ensures Find(Insert(t, e, c), k) == FindOut(Put(t, e, c), k)
  {
    match Put(t, e, c)
    case One(t') =>
    case Two(l, r) =>
      SlotIs([l, r], k, if Lt(k, r.key) then 0 else 1);
      FindAt([l, r], k);
  }
}
