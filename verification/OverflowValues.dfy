/** The overflow tree as a value, for any run of inserts and clears. The route of an insert, the halves of full
    nodes, the refreshed left key and the pushed key are those of the code; addresses, sibling links and the
    supply of nodes are left to the tree on disk. */
module OverflowValues {
  import opened Blocks
  import opened OverflowNodes
  import opened OverflowShape
  import opened OverflowOrder
  import opened OverflowInsert
  import opened OverflowScan

  datatype Tree = Tip(recs: seq<Extent>) | Fork(kids: seq<Kid>)

  /** A separator with the tree it leads to. */
  datatype Kid = Kid(key: Key, tree: Tree)

  // ----- records and separators of a tree

  /** The records of the leaf chain. */
  function Records(t: Tree): seq<Extent> {
    match t
    case Tip(recs) => recs
    case Fork(kids) => RecordsAll(kids)
  }

  function KidRecords(k: Kid): seq<Extent> {
    Records(k.tree)
  }

  function RecordsAll(kids: seq<Kid>): seq<Extent> {
    if kids == [] then [] else
      var last := kids[|kids| - 1];
      RecordsAll(kids[..|kids| - 1]) + KidRecords(last)
  }

  /** All separators of a tree, those in slot 0 included. */
  function Marks(t: Tree): set<Key> {
    match t
    case Tip(recs) => {}
    case Fork(kids) => MarksAll(kids)
  }

  function KidMarks(k: Kid): set<Key> {
    {k.key} + Marks(k.tree)
  }

  function MarksAll(kids: seq<Kid>): set<Key> {
    if kids == [] then {} else
      var last := kids[|kids| - 1];
      MarksAll(kids[..|kids| - 1]) + KidMarks(last)
  }

  lemma {:induction false} AllOfConcat(a: seq<Kid>, b: seq<Kid>)
    ensures RecordsAll(a + b) == RecordsAll(a) + RecordsAll(b) && MarksAll(a + b) == MarksAll(a) + MarksAll(b)
  {
    if b == [] {
      assert a + b == a;
    } else {
      var n := |b| - 1;
      assert (a + b)[..|a + b| - 1] == a + b[..n];
      AllOfConcat(a, b[..n]);
    }
  }

  lemma {:induction false} AllOfOne(k: Kid)
    ensures RecordsAll([k]) == Records(k.tree) && MarksAll([k]) == {k.key} + Marks(k.tree)
  {
    assert [k][..0] == [];
  }

  // ----- separation

  /** Everything in these trees, separators and records, lies below the key. */
  ghost predicate LeftOf(kids: seq<Kid>, k: Key) {
    (forall m | m in MarksAll(kids) :: Lt(m, k)) && AllBelow(RecordsAll(kids), k)
  }

  /** No record of these trees lies below the key. */
  ghost predicate RightOf(kids: seq<Kid>, k: Key) {
    NoneBelow(RecordsAll(kids), k)
  }

  lemma {:induction false} SidesConcat(a: seq<Kid>, b: seq<Kid>, k: Key)
    ensures LeftOf(a + b, k) <==> LeftOf(a, k) && LeftOf(b, k)
    ensures RightOf(a + b, k) <==> RightOf(a, k) && RightOf(b, k)
  {
    AllOfConcat(a, b);
    BelowConcat(RecordsAll(a), RecordsAll(b), k);
  }

  lemma {:induction false} BelowConcat(a: seq<Extent>, b: seq<Extent>, k: Key)
    ensures AllBelow(a + b, k) <==> AllBelow(a, k) && AllBelow(b, k)
    ensures NoneBelow(a + b, k) <==> NoneBelow(a, k) && NoneBelow(b, k)
  {
    var s := a + b;
    assert forall i | 0 <= i < |a| :: s[i] == a[i];
    assert forall i | 0 <= i < |b| :: s[|a| + i] == b[i];
  }

  lemma {:induction false} SidesFurther(kids: seq<Kid>, k: Key, k': Key)
    requires Lt(k, k')
    ensures LeftOf(kids, k) ==> LeftOf(kids, k')
    ensures RightOf(kids, k') ==> RightOf(kids, k)
  {
  }

  lemma {:induction false} KeyBelow(kids: seq<Kid>, i: nat, k: Key)
    requires LeftOf(kids, k) && i < |kids|
    ensures Lt(kids[i].key, k)
  {
    assert kids == kids[..i] + [kids[i]] + kids[i + 1..];
    AllOfConcat(kids[..i] + [kids[i]], kids[i + 1..]);
    AllOfConcat(kids[..i], [kids[i]]);
    AllOfOne(kids[i]);
  }

  // ----- well-formed trees

  /** Every separator but that of slot 0 separates what lies left of it in its node from the records right
      of it. */
  ghost predicate Strict(t: Tree) {
    match t
    case Tip(recs) => SortedRecs(recs)
    case Fork(kids) => StrictAll(kids)
  }

  ghost predicate StrictKid(k: Kid) {
    Strict(k.tree)
  }

  ghost predicate StrictAll(kids: seq<Kid>) {
    && kids != [] && (forall i | 0 <= i < |kids| :: StrictKid(kids[i]))
    && (forall j {:trigger SplitsAt(kids, j)} | 1 <= j < |kids| :: SplitsAt(kids, j))
  }

  ghost predicate SplitsAt(kids: seq<Kid>, j: nat)
    requires j < |kids|
  {
    LeftOf(kids[..j], kids[j].key) && RightOf(kids[j..], kids[j].key)
  }

  /** Two lists together are well formed exactly when each is and the first key of the second separates them. */
  lemma {:induction false} StrictConcat(a: seq<Kid>, b: seq<Kid>)
    requires a != [] && b != []
    ensures StrictAll(a + b) <==> StrictAll(a) && StrictAll(b) && LeftOf(a, b[0].key) && RightOf(b, b[0].key)
  {
    hide LeftOf, RightOf, StrictKid;
    if StrictAll(a + b) {
      StrictParts(a, b);
    }
    if StrictAll(a) && StrictAll(b) && LeftOf(a, b[0].key) && RightOf(b, b[0].key) {
      StrictJoin(a, b);
    }
  }

  lemma {:induction false} StrictParts(a: seq<Kid>, b: seq<Kid>)
    requires a != [] && b != [] && StrictAll(a + b)
    ensures StrictAll(a) && StrictAll(b) && LeftOf(a, b[0].key) && RightOf(b, b[0].key)
  {
    hide LeftOf, RightOf, StrictKid;
    var t := a + b;
    assert forall i | 0 <= i < |a| :: t[i] == a[i];
    assert forall i | 0 <= i < |b| :: t[|a| + i] == b[i];
    forall j | 1 <= j < |a| ensures SplitsAt(a, j) {
      assert SplitsAt(t, j) && t[..j] == a[..j] && t[j..] == a[j..] + b;
      SidesConcat(a[j..], b, a[j].key);
    }
    forall j | 1 <= j < |b| ensures SplitsAt(b, j) {
      assert SplitsAt(t, |a| + j) && t[..|a| + j] == a + b[..j] && t[|a| + j..] == b[j..];
      SidesConcat(a, b[..j], b[j].key);
    }
    assert SplitsAt(t, |a|) && t[..|a|] == a && t[|a|..] == b;
  }

  lemma {:induction false} StrictJoin(a: seq<Kid>, b: seq<Kid>)
    requires a != [] && b != [] && StrictAll(a) && StrictAll(b) && LeftOf(a, b[0].key) && RightOf(b, b[0].key)
    ensures StrictAll(a + b)
  {
    hide LeftOf, RightOf, StrictKid;
    var t := a + b;
    assert forall i | 0 <= i < |a| :: t[i] == a[i];
    assert forall i | 0 <= i < |b| :: t[|a| + i] == b[i];
    forall j | 1 <= j < |t| ensures SplitsAt(t, j) {
      if j < |a| {
        JoinLeft(a, b, j);
      } else if j == |a| {
        assert t[..j] == a && t[j..] == b;
      } else {
        JoinRight(a, b, j - |a|);
      }
    }
  }

  lemma {:induction false} JoinLeft(a: seq<Kid>, b: seq<Kid>, j: nat)
    requires 1 <= j < |a| && b != [] && SplitsAt(a, j) && LeftOf(a, b[0].key) && RightOf(b, b[0].key)
    ensures SplitsAt(a + b, j)
  {
    var t := a + b;
    assert t[..j] == a[..j] && t[j..] == a[j..] + b && t[j] == a[j];
    KeyBelow(a, j, b[0].key);
    SidesFurther(b, a[j].key, b[0].key);
    SidesConcat(a[j..], b, a[j].key);
  }

  lemma {:induction false} JoinRight(a: seq<Kid>, b: seq<Kid>, j: nat)
    requires 1 <= j < |b| && SplitsAt(b, j) && LeftOf(a, b[0].key)
    ensures SplitsAt(a + b, |a| + j)
  {
    var t := a + b;
    assert t[..|a| + j] == a + b[..j] && t[|a| + j..] == b[j..] && t[|a| + j] == b[j];
    KeyBelow(b[..j], 0, b[j].key);
    assert b[..j][0] == b[0];
    SidesFurther(a, b[0].key, b[j].key);
    SidesConcat(a, b[..j], b[j].key);
  }

  lemma {:induction false} StrictOne(k: Kid)
    ensures StrictAll([k]) <==> Strict(k.tree)
  {
    assert [k][0] == k;
    assert Strict(k.tree) <==> StrictKid(k);
  }

  /** The records of a well-formed tree are in order along the leaf chain. */
  lemma {:induction false} StrictSorted(t: Tree)
    requires Strict(t)
    ensures SortedRecs(Records(t))
  {
    if t.Fork? {
      StrictSortedAll(t.kids);
    }
  }

  lemma {:induction false} StrictSortedAll(kids: seq<Kid>)
    requires StrictAll(kids)
    ensures SortedRecs(RecordsAll(kids))
  {
    var n := |kids| - 1;
    var a, last := kids[..n], kids[n];
    StrictSortedKid(last);
    AllOfOne(last);
    if a != [] {
      assert kids == a + [last];
      StrictConcat(a, [last]);
      StrictSortedAll(a);
      SortedTogether(RecordsAll(a), Records(last.tree), last.key);
    } else {
      assert kids == [last];
    }
  }

  lemma {:induction false} StrictSortedKid(k: Kid)
    requires StrictKid(k)
    ensures SortedRecs(Records(k.tree))
  {
    StrictSorted(k.tree);
  }

  lemma {:induction false} SortedTogether(a: seq<Extent>, b: seq<Extent>, k: Key)
    requires SortedRecs(a) && SortedRecs(b) && AllBelow(a, k) && NoneBelow(b, k)
    ensures SortedRecs(a + b)
  {
  }

  // ----- lookups

  /** The slot that routing chooses: the last one whose key is not above k, or slot 0. */
  function Slot(kids: seq<Kid>, k: Key): (s: nat)
    requires kids != []
    ensures s < |kids| && (s > 0 ==> !Lt(k, kids[s].key))
    ensures forall i | s < i < |kids| :: Lt(k, kids[i].key)
  {
    var n := |kids| - 1;
    if n == 0 || !Lt(k, kids[n].key) then n else Slot(kids[..n], k)
  }

  function Get(recs: seq<Extent>, k: Key): Option<Extent> {
    if recs == [] then None else if recs[0].key == k then Some(recs[0]) else Get(recs[1..], k)
  }

  /** The record of a key as the descent of an insert finds it. */
  function Find(t: Tree, k: Key): Option<Extent> {
    match t
    case Tip(recs) => Get(recs, k)
    case Fork(kids) => if kids == [] then None else FindKid(kids[Slot(kids, k)], k)
  }

  function FindKid(kid: Kid, k: Key): Option<Extent> {
    Find(kid.tree, k)
  }

  lemma {:induction false} GetConcat(a: seq<Extent>, b: seq<Extent>, k: Key)
    ensures Get(a + b, k) == if Get(a, k).Some? then Get(a, k) else Get(b, k)
  {
    if a == [] {
      assert a + b == b;
    } else {
      assert (a + b)[1..] == a[1..] + b;
      GetConcat(a[1..], b, k);
    }
  }

  lemma {:induction false} GetNone(s: seq<Extent>, k: Key)
    requires forall i | 0 <= i < |s| :: s[i].key != k
    ensures Get(s, k) == None
  {
    if s != [] {
      GetNone(s[1..], k);
    }
  }

  ghost predicate AllAbove(s: seq<Extent>, k: Key) {
    forall i | 0 <= i < |s| :: Lt(k, s[i].key)
  }

  /** What a list holds left and right of the slot chosen for k. */
  lemma {:induction false} AroundSlot(kids: seq<Kid>, k: Key)
    requires StrictAll(kids)
    ensures var s := Slot(kids, k);
      && kids == kids[..s] + [kids[s]] + kids[s + 1..]
      && AllBelow(RecordsAll(kids[..s]), k)
      && AllAbove(RecordsAll(kids[s + 1..]), k)
      && RecordsAll(kids) == RecordsAll(kids[..s]) + Records(kids[s].tree) + RecordsAll(kids[s + 1..])
  {
    var s := Slot(kids, k);
    AroundKid(kids, s);
    if s > 0 {
      assert SplitsAt(kids, s);
    }
    if s + 1 < |kids| {
      assert SplitsAt(kids, s + 1);
    }
  }

  /** In a well-formed tree the descent finds exactly the records of the leaf chain. */
  lemma {:induction false} FindExact(t: Tree, k: Key)
    requires Strict(t)
    ensures Find(t, k) == Get(Records(t), k)
  {
    if t.Fork? {
      var s := Slot(t.kids, k);
      FindExactKid(t.kids[s], k);
      AroundSlot(t.kids, k);
      var a, x, b := RecordsAll(t.kids[..s]), Records(t.kids[s].tree), RecordsAll(t.kids[s + 1..]);
      GetConcat(a + x, b, k);
      GetConcat(a, x, k);
      GetNone(a, k);
      GetNone(b, k);
    }
  }

  lemma {:induction false} FindExactKid(kid: Kid, k: Key)
    requires StrictKid(kid)
    ensures FindKid(kid, k) == Get(Records(kid.tree), k)
  {
    FindExact(kid.tree, k);
  }

  lemma {:induction false} GetIsMap(s: seq<Extent>, k: Key)
    requires SortedRecs(s)
    ensures Get(s, k) == if k in AsMap(s) then Some(AsMap(s)[k]) else None
  {
    if i :| 0 <= i < |s| && s[i].key == k {
      GetAt(s, i);
      assert s[i] in s;
    } else {
      GetNone(s, k);
    }
  }

  lemma {:induction false} GetAt(s: seq<Extent>, i: nat)
    requires SortedRecs(s) && i < |s|
    ensures Get(s, s[i].key) == Some(s[i])
  {
    if i > 0 {
      assert Lt(s[0].key, s[i].key);
      var rest := s[1..];
      assert forall j | 0 <= j < |rest| :: rest[j] == s[j + 1];
      GetAt(rest, i - 1);
    }
  }

  // ----- inserts

  /** What an insert makes of a subtree: a tree, or two where there was one. */
  datatype Outcome = One(tree: Tree) | Two(left: Kid, right: Kid)

  /** The place of a key among sorted records. */
  function PlaceOf(recs: seq<Extent>, k: Key): (p: nat)
    ensures p <= |recs| && forall i | 0 <= i < p :: Lt(recs[i].key, k)
    ensures p < |recs| ==> !Lt(recs[p].key, k)
  {
    if recs == [] || !Lt(recs[0].key, k) then 0 else 1 + PlaceOf(recs[1..], k)
  }

  function Stored(recs: seq<Extent>, e: Extent): seq<Extent> {
    var p := PlaceOf(recs, e.key);
    var w := if p < |recs| && recs[p].key == e.key then 1 else 0;
    recs[..p] + [e] + recs[p + w..]
  }

  /** A node whose child became two: its entry refreshed, the new sibling behind it. */
  function Merged(kids: seq<Kid>, s: nat, l: Kid, r: Kid): seq<Kid>
    requires s < |kids|
  {
    kids[..s] + [l, r] + kids[s + 1..]
  }

  function PutTip(recs: seq<Extent>, e: Extent, c: Caps): Outcome {
    var all := Stored(recs, e);
    if |all| <= c.leaf || |all| == |recs| || |all| < 2 then One(Tip(all))
    else
      var n := |all| / 2;
      Two(Kid(all[0].key, Tip(all[..n])), Kid(all[n].key, Tip(all[n..])))
  }

  function Settle(kids: seq<Kid>, s: nat, x: Outcome, c: Caps): Outcome
    requires s < |kids|
  {
    match x
    case One(t) => One(Fork(kids[s := Kid(kids[s].key, t)]))
    case Two(l, r) =>
      var all := Merged(kids, s, l, r);
      if |all| <= c.index then One(Fork(all))
      else
        var n := |all| / 2;
        Two(Kid(all[0].key, Fork(all[..n])), Kid(all[n].key, Fork(all[n..])))
  }

  /** overflow_insert below a node. */
  function Put(t: Tree, e: Extent, c: Caps): Outcome {
    match t
    case Tip(recs) => PutTip(recs, e, c)
    case Fork(kids) =>
      if kids == [] then One(t)
      else
        var s := Slot(kids, e.key);
        Settle(kids, s, PutKid(kids[s], e, c), c)
  }

  function PutKid(k: Kid, e: Extent, c: Caps): Outcome {
    Put(k.tree, e, c)
  }

  /** overflow_insert: two halves of the root get a new root. */
  function Insert(t: Tree, e: Extent, c: Caps): Tree {
    match Put(t, e, c)
    case One(t') => t'
    case Two(l, r) => Fork([l, r])
  }

  function OutRecords(x: Outcome): seq<Extent> {
    match x
    case One(t) => Records(t)
    case Two(l, r) => Records(l.tree) + Records(r.tree)
  }

  function OutMarks(x: Outcome): set<Key> {
    match x
    case One(t) => Marks(t)
    case Two(l, r) => KidMarks(l) + KidMarks(r)
  }

  /** What settling a child's outcome in its parent holds. */
  lemma {:induction false} SettleParts(kids: seq<Kid>, s: nat, x: Outcome, c: Caps)
    requires s < |kids|
    ensures OutRecords(Settle(kids, s, x, c)) == RecordsAll(kids[..s]) + OutRecords(x) + RecordsAll(kids[s + 1..])
    ensures OutMarks(Settle(kids, s, x, c)) <= MarksAll(kids) + OutMarks(x)
  {
    hide RecordsAll, MarksAll;
    match x
    case One(t) =>
      AroundKid(kids, s);
      AroundKid(kids[s := Kid(kids[s].key, t)], s);
      assert kids[s := Kid(kids[s].key, t)][s + 1..] == kids[s + 1..];
      assert kids[s := Kid(kids[s].key, t)][..s] == kids[..s];
    case Two(l, r) =>
      AroundKid(kids, s);
      MergedParts(kids, s, l, r);
      SplitParts(Merged(kids, s, l, r), |Merged(kids, s, l, r)| / 2);
  }

  lemma {:induction false} AroundKid(kids: seq<Kid>, s: nat)
    requires s < |kids|
    ensures kids == kids[..s] + [kids[s]] + kids[s + 1..]
    ensures RecordsAll(kids) == RecordsAll(kids[..s]) + Records(kids[s].tree) + RecordsAll(kids[s + 1..])
    ensures MarksAll(kids) == MarksAll(kids[..s]) + KidMarks(kids[s]) + MarksAll(kids[s + 1..])
  {
    var a, b := kids[..s], kids[s + 1..];
    assert kids == a + [kids[s]] + b;
    AllOfConcat(a + [kids[s]], b);
    AllOfConcat(a, [kids[s]]);
    AllOfOne(kids[s]);
  }

  lemma {:induction false} MergedParts(kids: seq<Kid>, s: nat, l: Kid, r: Kid)
    requires s < |kids|
    ensures var all := Merged(kids, s, l, r);
      && RecordsAll(all) == RecordsAll(kids[..s]) + (Records(l.tree) + Records(r.tree)) + RecordsAll(kids[s + 1..])
      && MarksAll(all) == MarksAll(kids[..s]) + (KidMarks(l) + KidMarks(r)) + MarksAll(kids[s + 1..])
  {
    var a, b := kids[..s], kids[s + 1..];
    AllOfConcat(a + [l, r], b);
    AllOfConcat(a, [l, r]);
    assert [l, r] == [l] + [r];
    AllOfConcat([l], [r]);
    AllOfOne(l);
    AllOfOne(r);
  }

  lemma {:induction false} SplitParts(all: seq<Kid>, n: nat)
    requires 0 < n < |all|
    ensures RecordsAll(all) == RecordsAll(all[..n]) + RecordsAll(all[n..])
    ensures MarksAll(all) == KidMarks(Kid(all[0].key, Fork(all[..n]))) + KidMarks(Kid(all[n].key, Fork(all[n..])))
  {
    assert Marks(Fork(all[..n])) == MarksAll(all[..n]) && Marks(Fork(all[n..])) == MarksAll(all[n..]);
    assert all == all[..n] + all[n..];
    AllOfConcat(all[..n], all[n..]);
    FirstMark(all[..n]);
    FirstMark(all[n..]);
  }

  lemma {:induction false} FirstMark(kids: seq<Kid>)
    requires kids != []
    ensures kids[0].key in MarksAll(kids)
  {
    assert kids == [kids[0]] + kids[1..];
    AllOfConcat([kids[0]], kids[1..]);
    AllOfOne(kids[0]);
  }

  ghost predicate MarksBelow(marks: set<Key>, k: Key) {
    forall m | m in marks :: Lt(m, k)
  }

  /** An insert stays on the side of a key on which the tree and the new record are. */
  lemma {:induction false} PutSides(t: Tree, e: Extent, c: Caps, k: Key)
    ensures MarksBelow(Marks(t), k) && AllBelow(Records(t), k) && Lt(e.key, k) ==>
      MarksBelow(OutMarks(Put(t, e, c)), k) && AllBelow(OutRecords(Put(t, e, c)), k)
    ensures NoneBelow(Records(t), k) && !Lt(e.key, k) ==> NoneBelow(OutRecords(Put(t, e, c)), k)
  {
    match t
    case Tip(recs) => PutTipSides(recs, e, c, k);
    case Fork(kids) =>
      if kids != [] {
        var s := Slot(kids, e.key);
        PutKidSides(kids[s], e, c, k);
        ForkSides(kids, s, PutKid(kids[s], e, c), e, c, k);
      }
  }

  lemma {:induction false} PutKidSides(kid: Kid, e: Extent, c: Caps, k: Key)
    ensures MarksBelow(Marks(kid.tree), k) && AllBelow(Records(kid.tree), k) && Lt(e.key, k) ==>
      MarksBelow(OutMarks(PutKid(kid, e, c)), k) && AllBelow(OutRecords(PutKid(kid, e, c)), k)
    ensures NoneBelow(Records(kid.tree), k) && !Lt(e.key, k) ==> NoneBelow(OutRecords(PutKid(kid, e, c)), k)
  {
    PutSides(kid.tree, e, c, k);
  }

  lemma {:induction false} PutTipSides(recs: seq<Extent>, e: Extent, c: Caps, k: Key)
    ensures AllBelow(recs, k) && Lt(e.key, k) ==>
      MarksBelow(OutMarks(PutTip(recs, e, c)), k) && AllBelow(OutRecords(PutTip(recs, e, c)), k)
    ensures NoneBelow(recs, k) && !Lt(e.key, k) ==> NoneBelow(OutRecords(PutTip(recs, e, c)), k)
  {
    var all := Stored(recs, e);
    PutTipRecords(recs, e, c);
    var p := PlaceOf(recs, e.key);
    var w := if p < |recs| && recs[p].key == e.key then 1 else 0;
    if PutTip(recs, e, c).Two? {
      var l, r := PutTip(recs, e, c).left, PutTip(recs, e, c).right;
      assert Marks(l.tree) == {} && Marks(r.tree) == {};
      assert OutMarks(PutTip(recs, e, c)) == {all[0].key, all[|all| / 2].key};
    }
    forall i | 0 <= i < |all| ensures all[i] == e || all[i] in recs {
      assert all[i] == (if i < p then recs[i] else if i == p then e else recs[i - 1 + w]);
    }
  }

  lemma {:induction false} PutTipRecords(recs: seq<Extent>, e: Extent, c: Caps)
    ensures OutRecords(PutTip(recs, e, c)) == Stored(recs, e)
    ensures PutTip(recs, e, c).Two? ==> |Stored(recs, e)| >= 2
  {
    var all := Stored(recs, e);
    assert |all| >= 1 && all == all[..|all| / 2] + all[|all| / 2..];
  }

  lemma {:induction false} ForkSides(kids: seq<Kid>, s: nat, x: Outcome, e: Extent, c: Caps, k: Key)
    requires s < |kids|
    ensures MarksBelow(MarksAll(kids) + OutMarks(x), k) && AllBelow(RecordsAll(kids), k) && AllBelow(OutRecords(x), k)
      ==> MarksBelow(OutMarks(Settle(kids, s, x, c)), k) && AllBelow(OutRecords(Settle(kids, s, x, c)), k)
    ensures NoneBelow(RecordsAll(kids), k) && NoneBelow(OutRecords(x), k)
      ==> NoneBelow(OutRecords(Settle(kids, s, x, c)), k)
    ensures MarksBelow(MarksAll(kids), k) ==> MarksBelow(Marks(kids[s].tree), k)
    ensures AllBelow(RecordsAll(kids), k) ==> AllBelow(Records(kids[s].tree), k)
    ensures NoneBelow(RecordsAll(kids), k) ==> NoneBelow(Records(kids[s].tree), k)
  {
    hide RecordsAll, MarksAll;
    var a, b := kids[..s], kids[s + 1..];
    AroundKid(kids, s);
    SettleParts(kids, s, x, c);
    BelowConcat(RecordsAll(a) + OutRecords(x), RecordsAll(b), k);
    BelowConcat(RecordsAll(a), OutRecords(x), k);
    BelowConcat(RecordsAll(a) + Records(kids[s].tree), RecordsAll(b), k);
    BelowConcat(RecordsAll(a), Records(kids[s].tree), k);
  }

  // ----- the map that an insert updates

  lemma {:induction false} PlaceWithin(x: seq<Extent>, recs: seq<Extent>, y: seq<Extent>, k: Key, g: nat, w: nat)
    requires PlaceFor(recs, g, w, k) && AllBelow(x, k) && AllAbove(y, k)
    ensures PlaceFor(x + recs + y, |x| + g, w, k)
  {
    var s := x + recs + y;
    forall i | 0 <= i < |s|
      ensures i < |x| + g ==> Lt(s[i].key, k)
      ensures i >= |x| + g + w ==> Lt(k, s[i].key)
    {
      if i >= |x| + |recs| {
        assert s[i] == y[i - |x| - |recs|];
      } else if i >= |x| {
        assert s[i] == recs[i - |x|];
      }
    }
  }

  /** The new record takes its place in the leaf chain. */
  lemma {:induction false} PutPlaces(t: Tree, e: Extent, c: Caps) returns (g: nat, w: nat)
    requires Strict(t)
    ensures PlaceFor(Records(t), g, w, e.key) && Placed(Records(t), OutRecords(Put(t, e, c)), g, w, e)
  {
    match t
    case Tip(recs) =>
      PutTipRecords(recs, e, c);
      g := PlaceOf(recs, e.key);
      w := if g < |recs| && recs[g].key == e.key then 1 else 0;
    case Fork(kids) =>
      var s := Slot(kids, e.key);
      AroundSlot(kids, e.key);
      g, w := PutPlacesKid(kids[s], e, c);
      hide RecordsAll, Records, PlaceFor, Placed;
      var a, b := RecordsAll(kids[..s]), RecordsAll(kids[s + 1..]);
      SettleParts(kids, s, PutKid(kids[s], e, c), c);
      PlaceWithin(a, Records(kids[s].tree), b, e.key, g, w);
      PlacedInLevel(a, Records(kids[s].tree), OutRecords(PutKid(kids[s], e, c)), b, g, w, e);
      g := |a| + g;
      ForkRecords(kids);
  }

  lemma {:induction false} ForkRecords(kids: seq<Kid>)
    ensures Records(Fork(kids)) == RecordsAll(kids)
  {
  }

  lemma {:induction false} PutPlacesKid(k: Kid, e: Extent, c: Caps) returns (g: nat, w: nat)
    requires StrictKid(k)
    ensures PlaceFor(Records(k.tree), g, w, e.key) && Placed(Records(k.tree), OutRecords(PutKid(k, e, c)), g, w, e)
  {
    g, w := PutPlaces(k.tree, e, c);
  }

  lemma {:induction false} InsertRecords(t: Tree, e: Extent, c: Caps)
    ensures Records(Insert(t, e, c)) == OutRecords(Put(t, e, c))
  {
    if Put(t, e, c).Two? {
      var l, r := Put(t, e, c).left, Put(t, e, c).right;
      assert [l, r] == [l] + [r];
      AllOfConcat([l], [r]);
      AllOfOne(l);
      AllOfOne(r);
    }
  }

  /** Into any well-formed tree, whatever was cleared from it before: the leaf chain then holds the updated
      map. */
  lemma {:induction false} InsertUpdates(t: Tree, e: Extent, c: Caps)
    requires Strict(t)
    ensures SortedRecs(Records(t)) && SortedRecs(Records(Insert(t, e, c)))
    ensures AsMap(Records(Insert(t, e, c))) == AsMap(Records(t))[e.key := e]
  {
    StrictSorted(t);
    InsertRecords(t, e, c);
    var g, w := PutPlaces(t, e, c);
    PlacedMap(Records(t), Records(Insert(t, e, c)), g, w, e);
  }

  // ----- when the tree stays well formed

  /** The key that the left half of a split node hands up lies between what is left of it and the records
      below it. */
  ghost predicate Handed(before: seq<Kid>, l: Kid) {
    LeftOf(before, l.key) && RightOf([l], l.key)
  }

  /** Wherever a split is handed up to an entry other than that of slot 0, the key handed up fits. */
  ghost predicate SafePut(t: Tree, e: Extent, c: Caps) {
    match t
    case Tip(recs) => true
    case Fork(kids) =>
      kids == []
      || var s := Slot(kids, e.key);
         && SafeKid(kids[s], e, c)
         && (s > 0 && PutKid(kids[s], e, c).Two? ==> Handed(kids[..s], PutKid(kids[s], e, c).left))
  }

  ghost predicate SafeKid(k: Kid, e: Extent, c: Caps) {
    SafePut(k.tree, e, c)
  }

  ghost predicate GoodOut(x: Outcome) {
    match x
    case One(t) => Strict(t)
    case Two(l, r) => StrictAll([l, r])
  }

  lemma {:induction false} TwoStrict(l: Kid, r: Kid)
    ensures StrictAll([l, r]) <==> Strict(l.tree) && Strict(r.tree) && LeftOf([l], r.key) && RightOf([r], r.key)
  {
    assert [l, r] == [l] + [r];
    StrictConcat([l], [r]);
    StrictOne(l);
    StrictOne(r);
  }

  /** What lies around a slot of a well-formed node is well formed. */
  lemma {:induction false} StrictAround(kids: seq<Kid>, s: nat)
    requires StrictAll(kids) && s < |kids|
    ensures Strict(kids[s].tree)
    ensures s > 0 ==> StrictAll(kids[..s]) && LeftOf(kids[..s], kids[s].key) && RightOf(kids[s..], kids[s].key)
    ensures s + 1 < |kids| ==>
      && StrictAll(kids[s + 1..]) && LeftOf(kids[..s + 1], kids[s + 1].key) && RightOf(kids[s + 1..], kids[s + 1].key)
  {
    assert StrictKid(kids[s]);
    if s > 0 {
      assert kids == kids[..s] + kids[s..];
      StrictConcat(kids[..s], kids[s..]);
    }
    if s + 1 < |kids| {
      assert kids == kids[..s + 1] + kids[s + 1..];
      StrictConcat(kids[..s + 1], kids[s + 1..]);
    }
  }

  /** Replacing the kids of one slot by others that stay within its bounds: only their own order, and what they
      put in front, is in question. */
  lemma {:induction false} ReplaceIff(kids: seq<Kid>, s: nat, m: seq<Kid>)
    requires StrictAll(kids) && s < |kids| && m != []
    requires s + 1 < |kids| ==> LeftOf(m, kids[s + 1].key)
    ensures StrictAll(kids[..s] + m + kids[s + 1..])
      <==> StrictAll(m) && (s > 0 ==> LeftOf(kids[..s], m[0].key) && RightOf(m, m[0].key))
  {
    hide LeftOf, RightOf, StrictAll;
    var a, b := kids[..s], kids[s + 1..];
    StrictAround(kids, s);
    var mb := m + b;
    if b == [] {
      assert mb == m;
    } else {
      StrictConcat(m, b);
      KeyBelow(m, 0, b[0].key);
      SidesFurther(b, m[0].key, b[0].key);
      SidesConcat(m, b, m[0].key);
    }
    assert StrictAll(mb) <==> StrictAll(m);
    assert a + m + b == a + mb;
    if a == [] {
      assert a + mb == mb;
    } else {
      StrictConcat(a, mb);
      assert mb[0] == m[0];
    }
  }

  /** An outcome that stays within the bounds of its slot. */
  ghost predicate InSlot(kids: seq<Kid>, s: nat, x: Outcome) {
    && s < |kids|
    && (s + 1 < |kids| ==> MarksBelow(OutMarks(x), kids[s + 1].key) && AllBelow(OutRecords(x), kids[s + 1].key))
    && (s > 0 ==> NoneBelow(OutRecords(x), kids[s].key))
  }

  lemma {:induction false} SettleOneIff(kids: seq<Kid>, s: nat, t: Tree)
    requires StrictAll(kids) && InSlot(kids, s, One(t))
    ensures StrictAll(kids[s := Kid(kids[s].key, t)]) <==> Strict(t)
  {
    var k := Kid(kids[s].key, t);
    AllOfOne(k);
    StrictOne(k);
    StrictAround(kids, s);
    if s + 1 < |kids| {
      KeyBelow(kids[..s + 1], s, kids[s + 1].key);
    }
    ReplaceIff(kids, s, [k]);
    assert kids[s := k] == kids[..s] + [k] + kids[s + 1..];
  }

  lemma {:induction false} SettleTwoIff(kids: seq<Kid>, s: nat, l: Kid, r: Kid)
    requires StrictAll(kids) && InSlot(kids, s, Two(l, r))
    ensures StrictAll(Merged(kids, s, l, r)) <==> StrictAll([l, r]) && (s > 0 ==> Handed(kids[..s], l))
  {
    assert [l, r] == [l] + [r];
    AllOfConcat([l], [r]);
    AllOfOne(l);
    AllOfOne(r);
    ReplaceIff(kids, s, [l, r]);
    TwoStrict(l, r);
    SidesConcat([l], [r], l.key);
    if StrictAll([l, r]) {
      KeyBelow([l], 0, r.key);
      SidesFurther([r], l.key, r.key);
    }
  }

  lemma {:induction false} SettleIff(kids: seq<Kid>, s: nat, x: Outcome, c: Caps)
    requires StrictAll(kids) && InSlot(kids, s, x)
    ensures GoodOut(Settle(kids, s, x, c)) <==> GoodOut(x) && (s > 0 && x.Two? ==> Handed(kids[..s], x.left))
  {
    match x
    case One(t) => SettleOneIff(kids, s, t);
    case Two(l, r) =>
      SettleTwoIff(kids, s, l, r);
      var all := Merged(kids, s, l, r);
      if |all| > c.index {
        var n := |all| / 2;
        assert all == all[..n] + all[n..];
        StrictConcat(all[..n], all[n..]);
        HalvesIff(all, n);
      }
  }

  lemma {:induction false} HalvesIff(all: seq<Kid>, n: nat)
    requires 0 < n < |all|
    ensures StrictAll([Kid(all[0].key, Fork(all[..n])), Kid(all[n].key, Fork(all[n..]))]) <==> StrictAll(all)
  {
    var l, r := Kid(all[0].key, Fork(all[..n])), Kid(all[n].key, Fork(all[n..]));
    TwoStrict(l, r);
    AllOfOne(l);
    AllOfOne(r);
    FirstMark(all[..n]);
    assert all == all[..n] + all[n..];
    StrictConcat(all[..n], all[n..]);
    assert MarksAll([l]) == MarksAll(all[..n]);
  }

  /** The outcome for the chosen kid stays within the bounds of its slot. */
  lemma {:induction false} PutInSlot(kids: seq<Kid>, e: Extent, c: Caps)
    requires StrictAll(kids)
    ensures var s := Slot(kids, e.key); InSlot(kids, s, PutKid(kids[s], e, c))
  {
    var s := Slot(kids, e.key);
    StrictAround(kids, s);
    if s + 1 < |kids| {
      assert kids[..s + 1] == kids[..s] + [kids[s]];
      SidesConcat(kids[..s], [kids[s]], kids[s + 1].key);
      AllOfOne(kids[s]);
      PutKidSides(kids[s], e, c, kids[s + 1].key);
    }
    if s > 0 {
      assert kids[s..] == [kids[s]] + kids[s + 1..];
      SidesConcat([kids[s]], kids[s + 1..], kids[s].key);
      AllOfOne(kids[s]);
      PutKidSides(kids[s], e, c, kids[s].key);
    }
  }

  lemma {:induction false} PutIff(t: Tree, e: Extent, c: Caps)
    requires Strict(t)
    ensures GoodOut(Put(t, e, c)) <==> SafePut(t, e, c)
  {
    match t
    case Tip(recs) => PutTipGood(recs, e, c);
    case Fork(kids) =>
      var s := Slot(kids, e.key);
      assert StrictKid(kids[s]);
      PutKidIff(kids[s], e, c);
      PutInSlot(kids, e, c);
      SettleIff(kids, s, PutKid(kids[s], e, c), c);
  }

  lemma {:induction false} PutKidIff(k: Kid, e: Extent, c: Caps)
    requires StrictKid(k)
    ensures GoodOut(PutKid(k, e, c)) <==> SafeKid(k, e, c)
  {
    PutIff(k.tree, e, c);
  }

  lemma {:induction false} PutTipGood(recs: seq<Extent>, e: Extent, c: Caps)
    requires SortedRecs(recs)
    ensures GoodOut(PutTip(recs, e, c))
  {
    var all := Stored(recs, e);
    var p := PlaceOf(recs, e.key);
    var w := if p < |recs| && recs[p].key == e.key then 1 else 0;
    assert |all| >= 1;
    PlacedSorted(recs, all, p, w, e);
    if PutTip(recs, e, c).Two? {
      hide Stored;
      TipHalves(all, |all| / 2);
    }
  }

  lemma {:induction false} TipHalves(all: seq<Extent>, n: nat)
    requires SortedRecs(all) && 0 < n < |all|
    ensures StrictAll([Kid(all[0].key, Tip(all[..n])), Kid(all[n].key, Tip(all[n..]))])
  {
    var l, r := Kid(all[0].key, Tip(all[..n])), Kid(all[n].key, Tip(all[n..]));
    SortedHalves(all, n);
    TwoStrict(l, r);
    AllOfOne(l);
    AllOfOne(r);
    assert Marks(l.tree) == {} && Records(l.tree) == all[..n] && Records(r.tree) == all[n..];
    hide StrictAll, SortedRecs, AllBelow, NoneBelow;
    assert MarksAll([l]) == {all[0].key};
  }

  lemma {:induction false} SortedHalves(all: seq<Extent>, n: nat)
    requires SortedRecs(all) && 0 < n < |all|
    ensures SortedRecs(all[..n]) && SortedRecs(all[n..]) && Lt(all[0].key, all[n].key)
    ensures AllBelow(all[..n], all[n].key) && NoneBelow(all[n..], all[n].key)
  {
    var a, b := all[..n], all[n..];
    forall i, j | 0 <= i < j < |b| ensures Lt(b[i].key, b[j].key) {
      assert b[i] == all[n + i] && b[j] == all[n + j];
    }
    forall i | 0 <= i < |b| ensures !Lt(b[i].key, all[n].key) {
      assert b[i] == all[n + i];
    }
  }

  /** Any well-formed tree stays well formed under an insert exactly when every key handed up fits. */
  lemma {:induction false} InsertIff(t: Tree, e: Extent, c: Caps)
    requires Strict(t)
    ensures Strict(Insert(t, e, c)) <==> SafePut(t, e, c)
  {
    PutIff(t, e, c);
  }
}
