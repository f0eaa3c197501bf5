/** Runs of inserts and clears on the overflow tree: when they refine the map, and a run on which they do not. */
module OverflowRuns {
  import opened Blocks
  import opened OverflowNodes
  import opened OverflowShape
  import opened OverflowInsert
  import opened OverflowScan
  import opened OverflowValues

  // ----- inserts that split no index node

  /** No index node on the route of the key is full. */
  predicate Roomy(t: Tree, k: Key, c: Caps) {
    match t
    case Tip(recs) => true
    case Fork(kids) => kids != [] && |kids| < c.index && RoomyKid(kids[Slot(kids, k)], k, c)
  }

  predicate RoomyKid(kid: Kid, k: Key, c: Caps) {
    Roomy(kid.tree, k, c)
  }

  /** The key that a split leaf hands up always fits. */
  lemma {:induction false} LeafHanded(kids: seq<Kid>, e: Extent, c: Caps)
    requires StrictAll(kids)
    requires var s := Slot(kids, e.key); s > 0 && kids[s].tree.Tip? && PutKid(kids[s], e, c).Two?
    ensures var s := Slot(kids, e.key); Handed(kids[..s], PutKid(kids[s], e, c).left)
  {
    var s := Slot(kids, e.key);
    var x := PutKid(kids[s], e, c);
    var l := x.left;
    PutInSlot(kids, e, c);
    StrictAround(kids, s);
    TipPut(kids[s].tree.recs, e, c);
    AllOfOne(l);
    if kids[s].key != l.key {
      SidesFurther(kids[..s], kids[s].key, l.key);
    }
  }

  /** The left half of a split leaf starts with the key it hands up. */
  lemma {:induction false} TipPut(recs: seq<Extent>, e: Extent, c: Caps)
    requires SortedRecs(recs) && PutTip(recs, e, c).Two?
    ensures var x := PutTip(recs, e, c);
      && OutRecords(x) != [] && OutRecords(x)[0].key == x.left.key && NoneBelow(Records(x.left.tree), x.left.key)
  {
    var all := Stored(recs, e);
    StoredSorted(recs, e);
    PutTipRecords(recs, e, c);
    hide Stored;
    SortedHalves(all, |all| / 2);
    assert Records(PutTip(recs, e, c).left.tree) == all[..|all| / 2];
    NoneBelowFirst(all[..|all| / 2]);
  }

  lemma {:induction false} StoredSorted(recs: seq<Extent>, e: Extent)
    requires SortedRecs(recs)
    ensures SortedRecs(Stored(recs, e)) && |Stored(recs, e)| >= 1
  {
    var p := PlaceOf(recs, e.key);
    var w := if p < |recs| && recs[p].key == e.key then 1 else 0;
    PlacedSorted(recs, Stored(recs, e), p, w, e);
  }

  lemma {:induction false} NoneBelowFirst(s: seq<Extent>)
    requires SortedRecs(s) && s != []
    ensures NoneBelow(s, s[0].key)
  {
  }

  /** An insert whose route meets no full index node is always safe: leaves may split, and the tree stays well
      formed. */
  lemma {:induction false} RoomyIsSafe(t: Tree, e: Extent, c: Caps)
    requires Strict(t) && Roomy(t, e.key, c)
    ensures SafePut(t, e, c) && (t.Fork? ==> Put(t, e, c).One?)
  {
    if t.Fork? {
      var s := Slot(t.kids, e.key);
      assert StrictKid(t.kids[s]);
      RoomyKidIsSafe(t.kids[s], e, c);
      if s > 0 && PutKid(t.kids[s], e, c).Two? {
        LeafHanded(t.kids, e, c);
      }
    }
  }

  lemma {:induction false} RoomyKidIsSafe(k: Kid, e: Extent, c: Caps)
    requires StrictKid(k) && RoomyKid(k, e.key, c)
    ensures SafeKid(k, e, c) && (k.tree.Fork? ==> PutKid(k, e, c).One?)
  {
    RoomyIsSafe(k.tree, e, c);
  }

  // ----- what is lost when the key does not fit

  /** If the left half hands up a key above one of its records, or not above a record left of it, that record
      is stored and no longer found. */
  lemma {:induction false} UnfitLoses(kids: seq<Kid>, s: nat, l: Kid, r: Kid, q: Extent)
    requires StrictAll(kids) && StrictAll([l, r]) && InSlot(kids, s, Two(l, r)) && s > 0
    requires (q in Records(l.tree) && Lt(q.key, l.key)) || (q in RecordsAll(kids[..s]) && !Lt(q.key, l.key))
    ensures q in RecordsAll(Merged(kids, s, l, r)) && Find(Fork(Merged(kids, s, l, r)), q.key) == None
  {
    var all := Merged(kids, s, l, r);
    MergedParts(kids, s, l, r);
    var n := Slot(all, q.key);
    hide StrictAll, InSlot, Slot, RecordsAll, Records, Merged;
    if q in Records(l.tree) && Lt(q.key, l.key) {
      UnfitBelow(kids, s, l, r, q);
      MissIn(kids[..s], n, q.key);
      MergedAt(kids, s, l, r, n);
    } else {
      UnfitAbove(kids, s, l, r, q);
      MissIn([l, r] + kids[s + 1..], n - s, q.key);
      MergedAt(kids, s, l, r, n);
    }
    FindAt(all, q.key);
  }

  lemma {:induction false} MergedAt(kids: seq<Kid>, s: nat, l: Kid, r: Kid, n: nat)
    requires s < |kids| && n < |Merged(kids, s, l, r)|
    ensures n < s ==> Merged(kids, s, l, r)[n] == kids[..s][n]
    ensures n >= s ==> n - s < |[l, r] + kids[s + 1..]| && Merged(kids, s, l, r)[n] == ([l, r] + kids[s + 1..])[n - s]
  {
  }

  lemma {:induction false} FindAt(kids: seq<Kid>, k: Key)
    requires kids != []
    ensures Find(Fork(kids), k) == FindKid(kids[Slot(kids, k)], k)
  {
  }

  ghost predicate NoKey(s: seq<Extent>, k: Key) {
    forall i | 0 <= i < |s| :: s[i].key != k
  }

  lemma {:induction false} NoKeyPart(a: seq<Extent>, x: seq<Extent>, b: seq<Extent>, k: Key)
    requires NoKey(a + x + b, k)
    ensures NoKey(x, k)
  {
    forall j | 0 <= j < |x| ensures x[j].key != k {
      assert (a + x + b)[|a| + j] == x[j];
    }
  }

  /** A key that no record of the list has is not found below any of its kids. */
  lemma {:induction false} MissIn(kids: seq<Kid>, i: nat, k: Key)
    requires i < |kids| && NoKey(RecordsAll(kids), k)
    ensures FindKid(kids[i], k) == None
  {
    AroundKid(kids, i);
    NoKeyPart(RecordsAll(kids[..i]), Records(kids[i].tree), RecordsAll(kids[i + 1..]), k);
    MissBelow(kids[i].tree, k);
  }

  lemma {:induction false} MissBelow(t: Tree, k: Key)
    requires NoKey(Records(t), k)
    ensures Find(t, k) == None
  {
    match t
    case Tip(recs) =>
      assert Records(t) == recs;
      GetNone(recs, k);
    case Fork(kids) =>
      if kids != [] {
        var i := Slot(kids, k);
        AroundKid(kids, i);
        assert Records(t) == RecordsAll(kids);
        NoKeyPart(RecordsAll(kids[..i]), Records(kids[i].tree), RecordsAll(kids[i + 1..]), k);
        MissKid(kids[i], k);
      }
  }

  lemma {:induction false} MissKid(kid: Kid, k: Key)
    requires NoKey(Records(kid.tree), k)
    ensures FindKid(kid, k) == None
  {
    MissBelow(kid.tree, k);
  }

  lemma {:induction false} OtherSide(s: seq<Extent>, k: Key, q: Key)
    requires (AllBelow(s, k) && !Lt(q, k)) || (NoneBelow(s, k) && Lt(q, k))
    ensures NoKey(s, q)
  {
  }

  lemma {:induction false} UnfitBelow(kids: seq<Kid>, s: nat, l: Kid, r: Kid, q: Extent)
    requires StrictAll(kids) && StrictAll([l, r]) && InSlot(kids, s, Two(l, r)) && s > 0
    requires q in Records(l.tree) && Lt(q.key, l.key)
    ensures Slot(Merged(kids, s, l, r), q.key) < s
    ensures NoKey(RecordsAll(kids[..s]), q.key)
  {
    var all := Merged(kids, s, l, r);
    StrictAround(kids, s);
    TwoStrict(l, r);
    KeyBelow([l], 0, r.key);
    var i :| 0 <= i < |Records(l.tree)| && Records(l.tree)[i] == q;
    assert OutRecords(Two(l, r))[i] == q;
    OtherSide(RecordsAll(kids[..s]), kids[s].key, q.key);
    forall n | s <= n < |all| ensures Lt(q.key, all[n].key) {
      if n >= s + 2 {
        assert all[n] == kids[n - 1];
        if n > s + 2 {
          assert SplitsAt(kids, n - 1);
          KeyBelow(kids[..n - 1], s + 1, kids[n - 1].key);
        }
      }
    }
  }

  lemma {:induction false} UnfitAbove(kids: seq<Kid>, s: nat, l: Kid, r: Kid, q: Extent)
    requires StrictAll(kids) && StrictAll([l, r]) && InSlot(kids, s, Two(l, r)) && s > 0
    requires q in RecordsAll(kids[..s]) && !Lt(q.key, l.key)
    ensures Slot(Merged(kids, s, l, r), q.key) >= s
    ensures NoKey(RecordsAll([l, r] + kids[s + 1..]), q.key)
  {
    var all := Merged(kids, s, l, r);
    StrictAround(kids, s);
    var i :| 0 <= i < |RecordsAll(kids[..s])| && RecordsAll(kids[..s])[i] == q;
    assert all[s] == l;
    RightPart(kids, s, l, r);
    OtherSide(RecordsAll([l, r] + kids[s + 1..]), kids[s].key, q.key);
  }

  lemma {:induction false} RightPart(kids: seq<Kid>, s: nat, l: Kid, r: Kid)
    requires s < |kids| && RightOf(kids[s..], kids[s].key) && NoneBelow(OutRecords(Two(l, r)), kids[s].key)
    ensures RightOf([l, r] + kids[s + 1..], kids[s].key)
  {
    assert kids[s..] == [kids[s]] + kids[s + 1..];
    SidesConcat([kids[s]], kids[s + 1..], kids[s].key);
    SidesConcat([l, r], kids[s + 1..], kids[s].key);
    assert [l, r] == [l] + [r];
    AllOfConcat([l], [r]);
    AllOfOne(l);
    AllOfOne(r);
  }

  // ----- clears

  /** overflow_clear_inode: leaves lose the inode's records, index nodes stay. */
  function Clear(t: Tree, ino: nat): Tree {
    match t
    case Tip(recs) => Tip(Without(recs, ino))
    case Fork(kids) => Fork(ClearAll(kids, ino))
  }

  function ClearAll(kids: seq<Kid>, ino: nat): (r: seq<Kid>)
    ensures |r| == |kids|
  {
    if kids == [] then [] else
      var last := kids[|kids| - 1];
      ClearAll(kids[..|kids| - 1], ino) + [ClearKid(last, ino)]
  }

  function ClearKid(k: Kid, ino: nat): Kid {
    Kid(k.key, Clear(k.tree, ino))
  }

  lemma {:induction false} ClearKeeps(t: Tree, ino: nat)
    ensures Records(Clear(t, ino)) == Without(Records(t), ino) && Marks(Clear(t, ino)) == Marks(t)
  {
    if t.Fork? {
      ClearAllKeeps(t.kids, ino);
    }
  }

  lemma {:induction false} ClearAllKeeps(kids: seq<Kid>, ino: nat)
    ensures RecordsAll(ClearAll(kids, ino)) == Without(RecordsAll(kids), ino)
    ensures MarksAll(ClearAll(kids, ino)) == MarksAll(kids)
  {
    if kids != [] {
      var n := |kids| - 1;
      ClearAllKeeps(kids[..n], ino);
      ClearKidKeeps(kids[n], ino);
      WithoutConcat(RecordsAll(kids[..n]), Records(kids[n].tree), ino);
      var a, x := ClearAll(kids[..n], ino), ClearKid(kids[n], ino);
      assert ClearAll(kids, ino) == a + [x];
      AllOfConcat(a, [x]);
      AllOfOne(x);
    }
  }

  lemma {:induction false} ClearKidKeeps(k: Kid, ino: nat)
    ensures Records(ClearKid(k, ino).tree) == Without(Records(k.tree), ino)
    ensures Marks(ClearKid(k, ino).tree) == Marks(k.tree)
  {
    ClearKeeps(k.tree, ino);
  }

  lemma {:induction false} WithoutSides(s: seq<Extent>, ino: nat, k: Key)
    ensures AllBelow(s, k) ==> AllBelow(Without(s, ino), k)
    ensures NoneBelow(s, k) ==> NoneBelow(Without(s, ino), k)
  {
    if s != [] {
      WithoutSides(s[..|s| - 1], ino, k);
      assert s == s[..|s| - 1] + [s[|s| - 1]];
      BelowConcat(s[..|s| - 1], [s[|s| - 1]], k);
    }
  }

  /** Clearing an inode keeps the tree well formed. */
  lemma {:induction false} ClearStrict(t: Tree, ino: nat)
    requires Strict(t)
    ensures Strict(Clear(t, ino))
  {
    match t
    case Tip(recs) => WithoutSorted(recs, ino);
    case Fork(kids) => ClearStrictAll(kids, ino);
  }

  lemma {:induction false} ClearStrictAll(kids: seq<Kid>, ino: nat)
    requires StrictAll(kids)
    ensures StrictAll(ClearAll(kids, ino))
  {
    var n := |kids| - 1;
    var a, x := kids[..n], kids[n];
    assert kids == a + [x] && StrictKid(x);
    ClearStrictKid(x, ino);
    ClearKidKeeps(x, ino);
    var x' := ClearKid(x, ino);
    StrictOne(x');
    if a != [] {
      StrictConcat(a, [x]);
      ClearStrictAll(a, ino);
      StrictConcat(ClearAll(a, ino), [x']);
      ClearAllKeeps(a, ino);
      AllOfOne(x);
      AllOfOne(x');
      WithoutSides(RecordsAll(a), ino, x.key);
      WithoutSides(Records(x.tree), ino, x.key);
    } else {
      assert ClearAll(kids, ino) == [x'];
    }
  }

  lemma {:induction false} ClearStrictKid(k: Kid, ino: nat)
    requires StrictKid(k)
    ensures Strict(ClearKid(k, ino).tree)
  {
    ClearStrict(k.tree, ino);
  }

  // ----- runs

  datatype Op = Add(e: Extent) | Drop(ino: nat)

  function Do(t: Tree, op: Op, c: Caps): Tree {
    match op
    case Add(e) => Insert(t, e, c)
    case Drop(ino) => Clear(t, ino)
  }

  function Run(ops: seq<Op>, c: Caps): Tree {
    if ops == [] then Tip([]) else Do(Run(ops[..|ops| - 1], c), ops[|ops| - 1], c)
  }

  /** Every key handed up by a split in the run fits. */
  ghost predicate SafeRun(ops: seq<Op>, c: Caps) {
    ops == []
    || (var last := ops[|ops| - 1];
        && SafeRun(ops[..|ops| - 1], c)
        && (last.Add? ==> SafePut(Run(ops[..|ops| - 1], c), last.e, c)))
  }

  /** The map after the run. */
  ghost function MapAfter(ops: seq<Op>): map<Key, Extent> {
    if ops == [] then map[]
    else
      var m, last := MapAfter(ops[..|ops| - 1]), ops[|ops| - 1];
      match last
      case Add(e) => m[e.key := e]
      case Drop(ino) => OtherInodes(m, ino)
  }

  /** Every safe run of inserts and clears refines the same run of map updates, and every lookup agrees. */
  lemma {:induction false} RunRefines(ops: seq<Op>, c: Caps, k: Key)
    requires SafeRun(ops, c)
    ensures Strict(Run(ops, c)) && SortedRecs(Records(Run(ops, c))) && AsMap(Records(Run(ops, c))) == MapAfter(ops)
    ensures Find(Run(ops, c), k) == if k in MapAfter(ops) then Some(MapAfter(ops)[k]) else None
  {
    if ops != [] {
      var n := |ops| - 1;
      var t := Run(ops[..n], c);
      RunRefines(ops[..n], c, k);
      match ops[n]
      case Add(e) =>
        InsertIff(t, e, c);
        InsertUpdates(t, e, c);
      case Drop(ino) =>
        ClearStrict(t, ino);
        ClearKeeps(t, ino);
        WithoutMap(Records(t), ino);
    }
    var t := Run(ops, c);
    FindExact(t, k);
    GetIsMap(Records(t), k);
  }

  lemma {:induction false} SafeUpTo(ops: seq<Op>, n: nat, c: Caps)
    requires SafeRun(ops, c) && n <= |ops|
    ensures SafeRun(ops[..n], c)
    decreases |ops| - n
  {
    if n == |ops| {
      assert ops[..n] == ops;
    } else {
      SafeUpTo(ops, n + 1, c);
      assert ops[..n + 1][..n] == ops[..n];
    }
  }

  /** The next operation of a safe run is safe. */
  lemma {:induction false} SafePrefix(ops: seq<Op>, n: nat, c: Caps)
    requires SafeRun(ops, c) && n < |ops|
    ensures ops[n].Add? ==> SafePut(Run(ops[..n], c), ops[n].e, c)
    ensures Run(ops[..n + 1], c) == Do(Run(ops[..n], c), ops[n], c)
  {
    SafeUpTo(ops, n + 1, c);
    assert ops[..n + 1][..n] == ops[..n];
  }
}
