/** Relocation maps: open addressing with linear probing over a table at most half full. */
module RelocMap {
  import opened Blocks
  import opened SmallSets

  type Lba = nat

  /** One recorded relocation, with the checksum of the moved block. */
  datatype Entry = Entry(old_: Lba, new_: Lba, cksum: nat)

  datatype Slot = Free | Used(e: Entry)

  const HASH := 0x9E3779B97F4A7C15
  const WORD := 0x1_0000_0000_0000_0000

  /** The slot at which probing for x starts, in 64-bit arithmetic; the capacity is a power of two, so
      masking is the remainder. */
  function Home(x: Lba, cap: nat): (r: nat)
    requires cap > 0
    ensures r < cap
  {
    x * HASH % WORD % cap
  }

  /** The slot probed after d steps. */
  function At(x: Lba, d: nat, cap: nat): (r: nat)
    requires cap > 0
    ensures r < cap
  {
    (Home(x, cap) + d) % cap
  }

  // ----- the reference: the recorded entries in order

  /** The earliest entry recorded for x. */
  function First(es: seq<Entry>, x: Lba): Option<Entry> {
    if es == [] then None else if es[0].old_ == x then Some(es[0]) else First(es[1..], x)
  }

  /** The earliest entry recorded for x with checksum c. */
  function FirstWith(es: seq<Entry>, x: Lba, c: nat): Option<Entry> {
    if es == [] then None else if es[0].old_ == x && es[0].cksum == c then Some(es[0]) else FirstWith(es[1..], x, c)
  }

  function NewOr(e: Option<Entry>, default: Lba): Lba {
    match e case Some(x) => x.new_ case None => default
  }

  lemma {:induction false} FirstAt(es: seq<Entry>, x: Lba, j: nat)
    requires j < |es| && es[j].old_ == x && forall i | 0 <= i < j :: es[i].old_ != x
    ensures First(es, x) == Some(es[j])
  {
    if j > 0 {
      FirstAt(es[1..], x, j - 1);
    }
  }

  lemma {:induction false} FirstNone(es: seq<Entry>, x: Lba)
    requires forall i | 0 <= i < |es| :: es[i].old_ != x
    ensures First(es, x) == None
  {
    if es != [] {
      FirstNone(es[1..], x);
    }
  }

  lemma {:induction false} FirstConcat(a: seq<Entry>, b: seq<Entry>, x: Lba)
    ensures First(a + b, x) == if First(a, x).Some? then First(a, x) else First(b, x)
  {
    if a == [] {
      assert a + b == b;
    } else {
      assert (a + b)[1..] == a[1..] + b;
      FirstConcat(a[1..], b, x);
    }
  }

  lemma {:induction false} FirstWithAt(es: seq<Entry>, x: Lba, c: nat, j: nat)
    requires j < |es| && es[j].old_ == x && es[j].cksum == c && forall i | 0 <= i < j ::
      !(es[i].old_ == x && es[i].cksum == c)
    ensures FirstWith(es, x, c) == Some(es[j])
  {
    if j > 0 {
      FirstWithAt(es[1..], x, c, j - 1);
    }
  }

  lemma {:induction false} FirstWithNone(es: seq<Entry>, x: Lba, c: nat)
    requires forall i | 0 <= i < |es| :: !(es[i].old_ == x && es[i].cksum == c)
    ensures FirstWith(es, x, c) == None
  {
    if es != [] {
      FirstWithNone(es[1..], x, c);
    }
  }

  // ----- the table invariant

  /** Which entry each slot holds, and how far from its home each entry lies. */
  datatype Plan = Plan(owner: seq<Option<nat>>, dist: seq<nat>)

  ghost predicate SlotOk(t: seq<Slot>, es: seq<Entry>, p: Plan, x: nat)
    requires x < |t| == |p.owner| && |p.dist| == |es|
  {
    match p.owner[x]
    case None => t[x] == Free
    case Some(j) => j < |es| && t[x] == Used(es[j]) && x == At(es[j].old_, p.dist[j], |t|)
  }

  /** Entry j was stored in the first slot on its probe path that no earlier entry held. */
  ghost predicate EntryOk(t: seq<Slot>, es: seq<Entry>, p: Plan, j: nat)
    requires j < |es| == |p.dist| && |t| == |p.owner| && |t| > 0
  {
    && p.dist[j] < |t| && p.owner[At(es[j].old_, p.dist[j], |t|)] == Some(j)
    && forall d {:trigger At(es[j].old_, d, |t|)} | 0 <= d < p.dist[j] :: Earlier(p.owner[At(es[j].old_, d, |t|)], j)
  }

  ghost predicate Earlier(o: Option<nat>, j: nat) {
    o.Some? && o.value < j
  }

  ghost predicate TableOk(t: seq<Slot>, es: seq<Entry>, p: Plan) {
    && |es| < |t| == |p.owner| && |p.dist| == |es|
    && (forall x | 0 <= x < |t| :: SlotOk(t, es, p, x))
    && (forall j | 0 <= j < |es| :: EntryOk(t, es, p, j))
  }

  /** Storing one more entry at the first free slot of its probe path. */
  lemma {:induction false} Stored(t: seq<Slot>, es: seq<Entry>, p: Plan, e: Entry, d: nat)
    requires TableOk(t, es, p) && |es| + 1 < |t| && d < |t| && t[At(e.old_, d, |t|)] == Free
    requires forall i {:trigger At(e.old_, i, |t|)} | 0 <= i < d :: t[At(e.old_, i, |t|)] != Free
    ensures var x := At(e.old_, d, |t|);
      TableOk(t[x := Used(e)], es + [e], Plan(p.owner[x := Some(|es|)], p.dist + [d]))
  {
    hide Home, At;
    var x, n := At(e.old_, d, |t|), |es|;
    var t', es', p' := t[x := Used(e)], es + [e], Plan(p.owner[x := Some(n)], p.dist + [d]);
    assert SlotOk(t, es, p, x);
    forall y | 0 <= y < |t'| ensures SlotOk(t', es', p', y) {
      assert SlotOk(t, es, p, y);
    }
    forall j | 0 <= j < |es'| ensures EntryOk(t', es', p', j) {
      if j < n {
        assert EntryOk(t, es, p, j);
        forall i | 0 <= i < p'.dist[j] ensures Earlier(p'.owner[At(es'[j].old_, i, |t'|)], j) {
          assert Earlier(p.owner[At(es[j].old_, i, |t|)], j);
        }
      } else {
        forall i | 0 <= i < d ensures Earlier(p'.owner[At(e.old_, i, |t'|)], n) {
          assert SlotOk(t, es, p, At(e.old_, i, |t|));
        }
      }
    }
  }

  /** The slots held by the first k entries. */
  ghost function Held(t: seq<Slot>, owner: seq<Option<nat>>, k: nat): set<nat>
    requires |owner| == |t|
  {
    set x | 0 <= x < |t| && Earlier(owner[x], k)
  }

  lemma {:induction false} HeldSize(t: seq<Slot>, es: seq<Entry>, p: Plan, k: nat)
    requires TableOk(t, es, p) && k <= |es|
    ensures |Held(t, p.owner, k)| <= k
  {
    if k > 0 {
      hide Home, At;
      HeldSize(t, es, p, k - 1);
      var j := k - 1;
      var x := At(es[j].old_, p.dist[j], |t|);
      forall y | y in Held(t, p.owner, k) ensures y in Held(t, p.owner, j) + {x} {
        assert SlotOk(t, es, p, y);
      }
      SubsetSize(Held(t, p.owner, k), Held(t, p.owner, j) + {x});
      assert |Held(t, p.owner, j) + {x}| <= |Held(t, p.owner, j)| + 1;
    } else {
      assert Held(t, p.owner, 0) == {};
    }
  }

  /** The table always has a free slot. */
  lemma {:induction false} HasFree(t: seq<Slot>, es: seq<Entry>, p: Plan) returns (x: nat)
    requires TableOk(t, es, p)
    ensures x < |t| && t[x] == Free
  {
    hide Home, At;
    if y :| 0 <= y < |t| && t[y] == Free {
      x := y;
    } else {
      x := 0;
      HeldSize(t, es, p, |es|);
      BelowSize(|t|);
      forall y | 0 <= y < |t| ensures y in Held(t, p.owner, |es|) {
        assert SlotOk(t, es, p, y);
      }
      SubsetSize(Below(|t|), Held(t, p.owner, |es|));
      assert false;
    }
  }

  /** Probing from any home reaches every slot, wrapping around. */
  lemma {:induction false} Reached(x: Lba, slot: nat, cap: nat) returns (d: nat)
    requires slot < cap
    ensures d < cap && At(x, d, cap) == slot
  {
    var h := Home(x, cap);
    if slot >= h {
      d := slot - h;
    } else {
      d := slot + cap - h;
    }
    assert h + d == slot || h + d == slot + cap;
    Wrap(slot, cap);
  }

  lemma {:induction false} Wrap(slot: nat, cap: nat)
    requires slot < cap
    ensures slot % cap == slot && (slot + cap) % cap == slot
  {
  }

  // ----- probing

  /** While probing for x has passed d used slots. */
  ghost predicate Passed(t: seq<Slot>, x: Lba, d: nat)
    requires |t| > 0
  {
    d <= |t| && forall i {:trigger At(x, i, |t|)} | 0 <= i < d :: t[At(x, i, |t|)] != Free
  }

  /** Some free slot lies ahead, so probing ends. */
  lemma {:induction false} Ahead(t: seq<Slot>, es: seq<Entry>, p: Plan, x: Lba, d: nat)
    requires TableOk(t, es, p) && Passed(t, x, d)
    ensures d < |t|
  {
    var y := HasFree(t, es, p);
    var i := Reached(x, y, |t|);
    hide Home, At;
  }

  /** An entry for x is on the probe path of x, and behind all earlier entries for x. */
  lemma {:induction false} OnPath(t: seq<Slot>, es: seq<Entry>, p: Plan, x: Lba, d: nat, j: nat)
    requires TableOk(t, es, p) && Passed(t, x, d) && d < |t| && t[At(x, d, |t|)] == Free && j < |es| && es[j].old_ == x
    ensures p.dist[j] < d && t[At(x, p.dist[j], |t|)] == Used(es[j])
  {
    hide Home, At;
    assert EntryOk(t, es, p, j);
    assert SlotOk(t, es, p, At(x, p.dist[j], |t|));
    assert SlotOk(t, es, p, At(x, d, |t|));
  }

  /** Slot d of the probe path of x holds an entry for x: it was recorded after those on earlier slots. */
  lemma {:induction false} PathOrder(t: seq<Slot>, es: seq<Entry>, p: Plan, x: Lba, i: nat, j: nat)
    requires TableOk(t, es, p) && i < |es| && j < |es| && es[i].old_ == x && es[j].old_ == x && i < j
    ensures p.dist[i] < p.dist[j]
  {
    hide Home, At;
    assert EntryOk(t, es, p, i) && EntryOk(t, es, p, j);
  }

  lemma {:induction false} HolderOf(t: seq<Slot>, es: seq<Entry>, p: Plan, i: nat)
    requires TableOk(t, es, p) && i < |es|
    ensures p.dist[i] < |t| && t[At(es[i].old_, p.dist[i], |t|)] == Used(es[i])
  {
    assert EntryOk(t, es, p, i);
    assert SlotOk(t, es, p, At(es[i].old_, p.dist[i], |t|));
  }

  /** The entry in a used slot of the probe path. */
  lemma {:induction false} HeldEntry(t: seq<Slot>, es: seq<Entry>, p: Plan, x: Lba, d: nat) returns (j: nat)
    requires TableOk(t, es, p) && d < |t| && t[At(x, d, |t|)].Used?
    ensures j < |es| && es[j] == t[At(x, d, |t|)].e && p.owner[At(x, d, |t|)] == Some(j)
    ensures es[j].old_ == x ==> p.dist[j] == d
  {
    assert SlotOk(t, es, p, At(x, d, |t|));
    j := p.owner[At(x, d, |t|)].value;
    assert EntryOk(t, es, p, j);
    if es[j].old_ == x {
      SameStep(x, p.dist[j], d, |t|);
    }
  }

  lemma {:induction false} SameStep(x: Lba, a: nat, b: nat, cap: nat)
    requires a < cap && b < cap && At(x, a, cap) == At(x, b, cap)
    ensures a == b
  {
    var h := Home(x, cap);
    hide Home;
    assert h + a < cap || (h + a) % cap == h + a - cap by {
      if h + a >= cap {
        Wrap(h + a - cap, cap);
      }
    }
    assert h + b < cap || (h + b) % cap == h + b - cap by {
      if h + b >= cap {
        Wrap(h + b - cap, cap);
      }
    }
    assert h + a < cap ==> (h + a) % cap == h + a by {
      if h + a < cap {
        Wrap(h + a, cap);
      }
    }
    assert h + b < cap ==> (h + b) % cap == h + b by {
      if h + b < cap {
        Wrap(h + b, cap);
      }
    }
  }

  // ----- the code

  /** Slots enough for twice the entries: the initial capacity, doubled until it suffices. */
  method Capacity(initial: nat, count: nat) returns (cap: nat)
    requires initial > 0
    ensures cap >= 2 * count && cap >= initial
  {
    cap := initial;
    while cap < count * 2
      invariant cap >= initial
      decreases count * 2 - cap
    {
      cap := cap * 2;
    }
  }

  /** The distance to the first free slot on the probe path of x. */
  method FreeSlot(t: seq<Slot>, x: Lba, ghost es: seq<Entry>, ghost p: Plan) returns (idx: nat, ghost d: nat)
    requires TableOk(t, es, p)
    ensures d < |t| && idx == At(x, d, |t|) && t[idx] == Free && Passed(t, x, d)
  {
    hide Home, At;
    idx, d := Home(x, |t|), 0;
    AtZero(x, |t|);
    Ahead(t, es, p, x, d);
    while t[idx].Used?
      invariant d < |t| && idx == At(x, d, |t|) && Passed(t, x, d)
      decreases |t| - d
    {
      AtNext(x, d, |t|);
      assert Passed(t, x, d + 1);
      Ahead(t, es, p, x, d + 1);
      idx, d := (idx + 1) % |t|, d + 1;
    }
  }

  lemma {:induction false} AtZero(x: Lba, cap: nat)
    requires cap > 0
    ensures At(x, 0, cap) == Home(x, cap)
  {
    Wrap(Home(x, cap), cap);
  }

  lemma {:induction false} AtNext(x: Lba, d: nat, cap: nat)
    requires cap > 0
    ensures At(x, d + 1, cap) == (At(x, d, cap) + 1) % cap
  {
    hide Home;
    var s := Home(x, cap) + d;
    DivModUnique(s, cap, s / cap, s % cap);
    var r := s % cap;
    if r + 1 < cap {
      DivModUnique(s + 1, cap, s / cap, r + 1);
      Wrap(r + 1, cap);
    } else {
      assert s + 1 == (s / cap + 1) * cap;
      DivModUnique(s + 1, cap, s / cap + 1, 0);
      DivModUnique(cap, cap, 1, 0);
    }
  }

  /** reloc_map_create: the entries stored one after another. */
  method Create(es: seq<Entry>, initial: nat) returns (t: seq<Slot>, ghost p: Plan)
    requires initial > 0
    ensures TableOk(t, es, p) && |t| >= initial && |t| >= 2 * |es|
    ensures forall i | 0 <= i < |es| :: Used(es[i]) in t
  {
    var cap := Capacity(initial, |es|);
    t := seq(cap, _ => Free);
    p := Plan(seq(cap, _ => None), []);
    var i := 0;
    assert es[..0] == [];
    while i < |es|
      invariant 0 <= i <= |es| && |t| == cap && TableOk(t, es[..i], p)
    {
      var idx;
      ghost var d;
      idx, d := FreeSlot(t, es[i].old_, es[..i], p);
      assert es[..i + 1] == es[..i] + [es[i]];
      Stored(t, es[..i], p, es[i], d);
      p := Plan(p.owner[idx := Some(i)], p.dist + [d]);
      t := t[idx := Used(es[i])];
      i := i + 1;
    }
    assert es[..i] == es;
    forall j | 0 <= j < |es| ensures Used(es[j]) in t {
      HolderOf(t, es, p, j);
    }
  }

  /** No slot passed so far holds an entry for x. */
  ghost predicate NoneFor(t: seq<Slot>, x: Lba, d: nat)
    requires |t| > 0
  {
    forall i {:trigger At(x, i, |t|)} | 0 <= i < d :: t[At(x, i, |t|)].Used? && t[At(x, i, |t|)].e.old_ != x
  }

  /** reloc_map_get: the new address of the earliest entry recorded for x, 0 if there is none. */
  method Get(t: seq<Slot>, x: Lba, ghost es: seq<Entry>, ghost p: Plan) returns (r: Lba)
    requires TableOk(t, es, p)
    ensures r == if x == 0 then 0 else NewOr(First(es, x), 0)
  {
    if x == 0 {
      return 0;
    }
    r := Lookup(t, x, 0, es, p);
  }

  /** The probe loop shared by the lookups that stop at the first match. */
  method Lookup(t: seq<Slot>, x: Lba, default: Lba, ghost es: seq<Entry>, ghost p: Plan) returns (r: Lba)
    requires TableOk(t, es, p)
    ensures r == NewOr(First(es, x), default)
  {
    hide Home, At;
    var idx := Home(x, |t|);
    ghost var d := 0;
    AtZero(x, |t|);
    Ahead(t, es, p, x, d);
    while t[idx].Used?
      invariant d < |t| && idx == At(x, d, |t|) && Passed(t, x, d) && NoneFor(t, x, d)
      decreases |t| - d
    {
      if t[idx].e.old_ == x {
        FoundFirst(t, es, p, x, d);
        return t[idx].e.new_;
      }
      AtNext(x, d, |t|);
      Ahead(t, es, p, x, d + 1);
      idx, d := (idx + 1) % |t|, d + 1;
    }
    FoundNone(t, es, p, x, d);
    return default;
  }

  lemma {:induction false} FoundFirst(t: seq<Slot>, es: seq<Entry>, p: Plan, x: Lba, d: nat)
    requires TableOk(t, es, p) && d < |t| && NoneFor(t, x, d) && t[At(x, d, |t|)].Used? && t[At(x, d, |t|)].e.old_ == x
    ensures First(es, x) == Some(t[At(x, d, |t|)].e)
  {
    hide Home, At;
    var j := HeldEntry(t, es, p, x, d);
    forall i | 0 <= i < j ensures es[i].old_ != x {
      if es[i].old_ == x {
        PathOrder(t, es, p, x, i, j);
        HolderOf(t, es, p, i);
      }
    }
    FirstAt(es, x, j);
  }

  lemma {:induction false} FoundNone(t: seq<Slot>, es: seq<Entry>, p: Plan, x: Lba, d: nat)
    requires TableOk(t, es, p) && d < |t| && Passed(t, x, d) && NoneFor(t, x, d) && t[At(x, d, |t|)] == Free
    ensures First(es, x) == None
  {
    hide Home, At;
    forall i | 0 <= i < |es| ensures es[i].old_ != x {
      if es[i].old_ == x {
        OnPath(t, es, p, x, d, i);
      }
    }
    FirstNone(es, x);
  }

  /** No slot passed so far holds an entry for x with checksum c. */
  ghost predicate NoneWith(t: seq<Slot>, x: Lba, c: nat, d: nat)
    requires |t| > 0
  {
    forall i {:trigger At(x, i, |t|)} | 0 <= i < d ::
      t[At(x, i, |t|)].Used? && (t[At(x, i, |t|)].e.old_ == x ==> c == 0 || t[At(x, i, |t|)].e.cksum != c)
  }

  /** reloc_map_get_by_cksum: the earliest entry for x whose checksum matches too, else the earliest entry
      for x; a checksum of 0 matches nothing. */
  method GetByChecksum(t: seq<Slot>, x: Lba, c: nat, ghost es: seq<Entry>, ghost p: Plan) returns (r: Lba)
    requires TableOk(t, es, p)
    ensures r == if x == 0 then 0
                 else if c != 0 && FirstWith(es, x, c).Some? then FirstWith(es, x, c).value.new_
                 else NewOr(First(es, x), 0)
  {
    if x == 0 {
      return 0;
    }
    hide Home, At;
    var idx := Home(x, |t|);
    ghost var d := 0;
    var first: Option<Lba> := None;
    AtZero(x, |t|);
    Ahead(t, es, p, x, d);
    while t[idx].Used?
      invariant d < |t| && idx == At(x, d, |t|) && Passed(t, x, d) && NoneWith(t, x, c, d)
      invariant first.None? ==> NoneFor(t, x, d)
      invariant first.Some? ==> First(es, x).Some? && first.value == First(es, x).value.new_
      decreases |t| - d
    {
      if t[idx].e.old_ == x {
        if first.None? {
          FoundFirst(t, es, p, x, d);
          first := Some(t[idx].e.new_);
        }
        if c != 0 && t[idx].e.cksum == c {
          FoundWith(t, es, p, x, c, d);
          return t[idx].e.new_;
        }
      }
      AtNext(x, d, |t|);
      Ahead(t, es, p, x, d + 1);
      idx, d := (idx + 1) % |t|, d + 1;
    }
    if c != 0 {
      FoundNoneWith(t, es, p, x, c, d);
    }
    if first.None? {
      FoundNone(t, es, p, x, d);
      return 0;
    }
    return first.value;
  }

  lemma {:induction false} FoundWith(t: seq<Slot>, es: seq<Entry>, p: Plan, x: Lba, c: nat, d: nat)
    requires TableOk(t, es, p) && c != 0 && d < |t| && NoneWith(t, x, c, d)
    requires t[At(x, d, |t|)].Used? && t[At(x, d, |t|)].e.old_ == x && t[At(x, d, |t|)].e.cksum == c
    ensures FirstWith(es, x, c) == Some(t[At(x, d, |t|)].e)
  {
    hide Home, At;
    var j := HeldEntry(t, es, p, x, d);
    forall i | 0 <= i < j ensures !(es[i].old_ == x && es[i].cksum == c) {
      if es[i].old_ == x && es[i].cksum == c {
        PathOrder(t, es, p, x, i, j);
        HolderOf(t, es, p, i);
      }
    }
    FirstWithAt(es, x, c, j);
  }

  lemma {:induction false} FoundNoneWith(t: seq<Slot>, es: seq<Entry>, p: Plan, x: Lba, c: nat, d: nat)
    requires TableOk(t, es, p) && c != 0 && d < |t| && Passed(t, x, d) && NoneWith(t, x, c, d)
    requires t[At(x, d, |t|)] == Free
    ensures FirstWith(es, x, c) == None
  {
    hide Home, At;
    forall i | 0 <= i < |es| ensures !(es[i].old_ == x && es[i].cksum == c) {
      if es[i].old_ == x && es[i].cksum == c {
        OnPath(t, es, p, x, d, i);
      }
    }
    FirstWithNone(es, x, c);
  }
}
