/** How an inode stores its extent list: eight inline runs with implied offsets, then overflow extents
    with absolute offsets. */
module FileLayout {
  import opened Extents

  const INLINE := 8

  /** An extent_run; a run with both counts zero is an unused slot. */
  datatype Run = Run(start: Lba, blocks: nat, logical: nat)

  const UNUSED := Run(0, 0, 0)

  predicate Used(r: Run) {
    !(r.blocks == 0 && r.logical == 0)
  }

  /** The part of an inode record that maps data, with its entries in the overflow tree in key order. */
  datatype File = File(size: nat, slots: seq<Run>, over: seq<Ext>)

  const EMPTY_FILE := File(0, seq(INLINE, _ => UNUSED), [])

  /** Inline runs as extents: each starts where the previous one ends. */
  function InlineExts(slots: seq<Run>, base: nat): seq<Ext> {
    if slots == [] then []
    else if !Used(slots[0]) then InlineExts(slots[1..], base)
    else [Ext(base, slots[0].logical, slots[0].start, slots[0].blocks)]
         + InlineExts(slots[1..], base + slots[0].logical)
  }

  /** All extents of a file: inline first, then overflow. */
  function Collect(f: File): seq<Ext> {
    InlineExts(f.slots, 0) + f.over
  }

  function UsedCount(slots: seq<Run>): nat {
    if slots == [] then 0 else (if Used(slots[0]) then 1 else 0) + UsedCount(slots[1..])
  }

  /** Used slots come first, and the overflow tree is used only when all slots are. */
  ghost predicate LayoutOk(f: File) {
    && |f.slots| == INLINE
    && (exists k :: 0 <= k <= INLINE && PrefixUsed(f.slots, k))
    && (f.over != [] ==> PrefixUsed(f.slots, INLINE))
  }

  ghost predicate PrefixUsed(slots: seq<Run>, k: nat) {
    && k <= |slots|
    && (forall i | 0 <= i < k :: Used(slots[i]))
    && (forall i | k <= i < |slots| :: !Used(slots[i]))
  }

  // ----- packing a list

  /** The list with each extent starting where the previous one ends. */
  function Abut(list: seq<Ext>, base: nat): seq<Ext> {
    if list == [] then [] else [list[0].(ls := base)] + Abut(list[1..], base + list[0].lc)
  }

  lemma {:induction false} AbutOwned(list: seq<Ext>, base: nat)
    ensures Owned(Abut(list, base)) == Owned(list) && |Abut(list, base)| == |list|
  {
    if list != [] {
      AbutOwned(list[1..], base + list[0].lc);
      assert Abut(list, base)[1..] == Abut(list[1..], base + list[0].lc);
    }
  }

  lemma {:induction false} AbutCovered(list: seq<Ext>, base: nat, to: nat)
    requires Covers(list, base, to)
    ensures Abut(list, base) == list
  {
    if list != [] {
      AbutCovered(list[1..], End(list[0]), to);
      assert list == [list[0]] + list[1..];
    }
  }

  /** Packing never moves an extent to the right and leaves no gaps. */
  lemma {:induction false} AbutLeft(list: seq<Ext>, base: nat) returns (to: nat)
    requires AllOk(list) && Sorted(list) && (list != [] ==> base <= list[0].ls)
    ensures Covers(Abut(list, base), base, to) && AllOk(Abut(list, base))
    ensures to <= if list == [] then base else End(list[|list| - 1])
  {
    to := base;
    if list != [] {
      var rest := list[1..];
      forall i, j | 0 <= i < j < |rest| ensures End(rest[i]) <= rest[j].ls {
        assert rest[i] == list[i + 1] && rest[j] == list[j + 1];
      }
      if rest != [] {
        assert End(list[0]) <= list[1].ls && rest[0] == list[1];
      }
      to := AbutLeft(rest, base + list[0].lc);
      var p := Abut(list, base);
      assert p[1..] == Abut(rest, base + list[0].lc);
      assert rest != [] ==> rest[|rest| - 1] == list[|list| - 1];
      forall i | 0 <= i < |p| ensures ExtOk(p[i]) {
        assert i > 0 ==> p[i] == p[1..][i - 1];
      }
    }
  }

  // ----- storing a list

  function RunOf(e: Ext): Run {
    Run(e.ps, e.pc, e.lc)
  }

  /** The first eight extents inline, the rest in the overflow tree. */
  function StoredSlots(list: seq<Ext>): seq<Run> {
    seq(INLINE, i requires 0 <= i < INLINE => if i < |list| then RunOf(list[i]) else UNUSED)
  }

  lemma {:induction false} InlineUnused(slots: seq<Run>, base: nat)
    requires forall i | 0 <= i < |slots| :: !Used(slots[i])
    ensures InlineExts(slots, base) == []
  {
    if slots != [] {
      InlineUnused(slots[1..], base);
    }
  }

  /** Inline slots that hold the runs of a list give that list back, packed. */
  lemma {:induction false} InlineRuns(slots: seq<Run>, list: seq<Ext>, base: nat)
    requires |list| <= |slots| && AllOk(list)
    requires forall i | 0 <= i < |list| :: slots[i] == RunOf(list[i])
    requires forall i | |list| <= i < |slots| :: !Used(slots[i])
    ensures InlineExts(slots, base) == Abut(list, base)
  {
    if list == [] {
      InlineUnused(slots, base);
    } else {
      assert ExtOk(list[0]);
      InlineRuns(slots[1..], list[1..], base + list[0].lc);
    }
  }

  /** The file stores the list: first eight extents inline, the others in the overflow tree. */
  ghost predicate Stores(f: File, list: seq<Ext>) {
    && f.slots == StoredSlots(list)
    && f.over == if |list| > INLINE then list[INLINE..] else []
  }

  /** How a stored list comes back. */
  function PackedList(list: seq<Ext>): seq<Ext> {
    var k := if |list| < INLINE then |list| else INLINE;
    Abut(list[..k], 0) + list[k..]
  }

  /** A stored list comes back packed to the left in its inline part, and unchanged elsewhere. */
  lemma {:induction false} StoredIsAbut(f: File, list: seq<Ext>, k: nat)
    requires AllOk(list) && Stores(f, list) && k == if |list| < INLINE then |list| else INLINE
    ensures LayoutOk(f) && Collect(f) == Abut(list[..k], 0) + list[k..]
  {
    var head, tail := list[..k], list[k..];
    assert forall i | 0 <= i < k :: head[i] == list[i] && ExtOk(list[i]);
    assert PrefixUsed(f.slots, k);
    InlineRuns(f.slots, head, 0);
  }

  /** A stored list comes back with the same physical blocks, still in order and no further right. */
  lemma {:induction false} StoredCollect(f: File, list: seq<Ext>, n: nat)
    requires AllOk(list) && Sorted(list) && Within(list, n) && Stores(f, list)
    ensures LayoutOk(f) && Owned(Collect(f)) == Owned(list)
    ensures AllOk(Collect(f)) && Sorted(Collect(f)) && Within(Collect(f), n)
  {
    var k := if |list| < INLINE then |list| else INLINE;
    var head, tail := list[..k], list[k..];
    assert list == head + tail;
    StoredIsAbut(f, list, k);
    AbutOwned(head, 0);
    OwnedConcat(head, tail);
    OwnedConcat(Abut(head, 0), tail);
    AbutSorted(head, tail, n);
  }

  /** A stored list without gaps comes back unchanged. */
  lemma {:induction false} StoredExact(f: File, list: seq<Ext>, n: nat)
    requires AllOk(list) && Covers(list, 0, n) && Stores(f, list)
    ensures Collect(f) == list
  {
    var k := if |list| < INLINE then |list| else INLINE;
    assert list == list[..k] + list[k..];
    StoredIsAbut(f, list, k);
    var y := CoversSplit(list[..k], list[k..], 0, n);
    AbutCovered(list[..k], 0, y);
  }

  lemma {:induction false} AbutSorted(head: seq<Ext>, tail: seq<Ext>, n: nat)
    requires AllOk(head + tail) && Sorted(head + tail) && Within(head + tail, n) && (head == [] ==> tail == [])
    ensures AllOk(Abut(head, 0) + tail) && Sorted(Abut(head, 0) + tail) && Within(Abut(head, 0) + tail, n)
  {
    var p, list := Abut(head, 0), head + tail;
    assert forall i | 0 <= i < |head| :: head[i] == list[i];
    AbutOwned(head, 0);
    var to := AbutLeft(head, 0);
    CoversBounds(p, 0, to);
    var c := p + tail;
    hide Covers, Abut, Owned;
    forall i | 0 <= i < |c| ensures ExtOk(c[i]) && End(c[i]) <= n {
      if i >= |p| {
        assert c[i] == list[i];
      } else {
        assert head[|head| - 1] == list[|head| - 1];
      }
    }
    forall i, j | 0 <= i < j < |c| ensures End(c[i]) <= c[j].ls {
      if i >= |p| {
        assert c[i] == list[i] && c[j] == list[j];
      } else if j >= |p| {
        assert End(list[|head| - 1]) <= list[j].ls && c[j] == list[j];
      }
    }
  }

  // ----- the overflow tree, seen by one inode

  /** overflow_insert, restricted to the entries of one inode: sorted insert, overwriting an equal key. */
  function OverInsert(over: seq<Ext>, e: Ext): seq<Ext> {
    if over == [] || e.ls < over[0].ls then [e] + over
    else if e.ls == over[0].ls then [e] + over[1..]
    else [over[0]] + OverInsert(over[1..], e)
  }

  lemma {:induction false} OverAppend(over: seq<Ext>, e: Ext)
    requires forall i | 0 <= i < |over| :: over[i].ls < e.ls
    ensures OverInsert(over, e) == over + [e]
  {
    if over != [] {
      OverAppend(over[1..], e);
    }
  }

  // ----- appending one extent

  /** Logical blocks covered by the inline slots. */
  function InlineTotal(slots: seq<Run>): nat {
    if slots == [] then 0 else (if Used(slots[0]) then slots[0].logical else 0) + InlineTotal(slots[1..])
  }

  lemma {:induction false} InlineCovers(slots: seq<Run>, base: nat)
    requires AllOk(InlineExts(slots, base))
    ensures Covers(InlineExts(slots, base), base, base + InlineTotal(slots))
  {
    if slots != [] {
      var t := InlineExts(slots, base);
      if Used(slots[0]) {
        var rest := InlineExts(slots[1..], base + slots[0].logical);
        assert t[1..] == rest;
        assert ExtOk(t[0]);
        forall i | 0 <= i < |rest| ensures ExtOk(rest[i]) {
          assert rest[i] == t[i + 1];
        }
        InlineCovers(slots[1..], base + slots[0].logical);
      } else {
        InlineCovers(slots[1..], base);
      }
    }
  }

  /** Filling the first unused slot appends an extent that starts where the inline extents end. */
  lemma {:induction false} InlineAppend(slots: seq<Run>, k: nat, r: Run, base: nat)
    requires PrefixUsed(slots, k) && k < |slots| && Used(r)
    ensures PrefixUsed(slots[k := r], k + 1)
    ensures InlineExts(slots[k := r], base)
      == InlineExts(slots, base) + [Ext(base + InlineTotal(slots), r.logical, r.start, r.blocks)]
    decreases k
  {
    var t := slots[k := r];
    if k == 0 {
      InlineUnused(slots, base);
      InlineUnused(slots[1..], base + r.logical);
      assert t[1..] == slots[1..];
      NoTotal(slots);
    } else {
      assert Used(slots[0]);
      assert t[1..] == slots[1..][k - 1 := r];
      assert PrefixUsed(slots[1..], k - 1) by {
        assert forall i | 0 <= i < |slots[1..]| :: slots[1..][i] == slots[i + 1];
      }
      InlineAppend(slots[1..], k - 1, r, base + slots[0].logical);
    }
  }

  lemma {:induction false} NoTotal(slots: seq<Run>)
    requires forall i | 0 <= i < |slots| :: !Used(slots[i])
    ensures InlineTotal(slots) == 0
  {
    if slots != [] {
      NoTotal(slots[1..]);
    }
  }

  lemma {:induction false} PrefixUnique(slots: seq<Run>, j: nat, k: nat)
    requires PrefixUsed(slots, j) && PrefixUsed(slots, k)
    ensures j == k
  {
    assert j < |slots| ==> (Used(slots[j]) <==> j < k);
    assert k < |slots| ==> (Used(slots[k]) <==> k < j);
  }

  /** An extent added to a file: inline while there is room, else in the overflow tree. */
  function Appended(f: File, k: nat, e: Ext): File
    requires |f.slots| == INLINE
  {
    if k < INLINE then f.(slots := f.slots[k := RunOf(e)]) else f.(over := OverInsert(f.over, e))
  }

  lemma {:induction false} AppendedCollect(f: File, k: nat, e: Ext)
    requires LayoutOk(f) && PrefixUsed(f.slots, k) && ExtOk(e) && AllOk(Collect(f)) && Within(Collect(f), e.ls)
    ensures var f' := Appended(f, k, e); var at := if k < INLINE then InlineTotal(f.slots) else e.ls;
      && at <= e.ls && LayoutOk(f') && Collect(f') == Collect(f) + [e.(ls := at)]
      && (k < INLINE ==> PrefixUsed(f'.slots, k + 1)) && (k >= INLINE ==> PrefixUsed(f'.slots, k))
      && (forall n | Covers(Collect(f), 0, n) :: k < INLINE ==> at == n)
  {
    var f', inl := Appended(f, k, e), InlineExts(f.slots, 0);
    assert forall i | 0 <= i < |inl| :: Collect(f)[i] == inl[i];
    InlineCovers(f.slots, 0);
    if k < INLINE {
      if f.over != [] {
        PrefixUnique(f.slots, k, INLINE);
      }
      assert Collect(f) == inl;
      InlineAppend(f.slots, k, RunOf(e), 0);
      if inl != [] {
        LastEnd(inl, 0, InlineTotal(f.slots));
      }
      forall n | Covers(Collect(f), 0, n) ensures n == InlineTotal(f.slots) {
        CoversEnd(inl, 0, n, InlineTotal(f.slots));
      }
    } else {
      forall i | 0 <= i < |f.over| ensures f.over[i].ls < e.ls {
        assert Collect(f)[|inl| + i] == f.over[i] && ExtOk(Collect(f)[|inl| + i]);
      }
      OverAppend(f.over, e);
      assert inl + (f.over + [e]) == (inl + f.over) + [e];
    }
  }

  lemma {:induction false} LastEnd(list: seq<Ext>, from: nat, to: nat)
    requires Covers(list, from, to) && list != []
    ensures End(list[|list| - 1]) == to
  {
    if |list| == 1 {
      assert list[1..] == [];
    } else {
      LastEnd(list[1..], End(list[0]), to);
    }
  }

  // ----- ownership of the inline slots

  function SlotsOwned(slots: seq<Run>): multiset<Lba> {
    if slots == [] then multiset{} else multiset(Range(slots[0].start, slots[0].blocks)) + SlotsOwned(slots[1..])
  }

  lemma {:induction false} InlineOwned(slots: seq<Run>, base: nat)
    ensures Owned(InlineExts(slots, base)) == SlotsOwned(slots)
  {
    if slots != [] {
      if Used(slots[0]) {
        var t := InlineExts(slots, base);
        assert t[1..] == InlineExts(slots[1..], base + slots[0].logical);
        InlineOwned(slots[1..], base + slots[0].logical);
      } else {
        assert Range(slots[0].start, 0) == [];
        InlineOwned(slots[1..], base);
      }
    }
  }

  /** Slot i holds the first owned blocks once the slots before it are cleared. */
  lemma {:induction false} SlotsFrom(slots: seq<Run>, i: nat)
    requires i < |slots|
    ensures SlotsOwned(slots[i..]) == multiset(Range(slots[i].start, slots[i].blocks)) + SlotsOwned(slots[i + 1..])
  {
    assert slots[i..][1..] == slots[i + 1..];
  }

  lemma {:induction false} ClearedCollect(f: File)
    requires |f.slots| == INLINE && (forall i | 0 <= i < INLINE :: f.slots[i] == UNUSED) && f.over == []
    ensures LayoutOk(f) && Collect(f) == []
  {
    InlineUnused(f.slots, 0);
    assert PrefixUsed(f.slots, 0);
  }
}
