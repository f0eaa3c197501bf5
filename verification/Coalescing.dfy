/** Merging adjacent uncompressed extents before a list is stored. */
module Coalescing {
  import opened Extents

  /** Both uncompressed, physically and logically contiguous. */
  predicate Mergeable(p: Ext, e: Ext) {
    Plain(p) && Plain(e) && p.ps + p.pc == e.ps && End(p) == e.ls
  }

  function Merge(p: Ext, e: Ext): Ext {
    Ext(p.ls, p.lc + e.lc, p.ps, p.pc + e.pc)
  }

  function Push(acc: seq<Ext>, e: Ext): seq<Ext> {
    if acc != [] && Mergeable(acc[|acc| - 1], e) then acc[..|acc| - 1] + [Merge(acc[|acc| - 1], e)]
    else acc + [e]
  }

  function Coalesce(list: seq<Ext>): seq<Ext> {
    if list == [] then [] else Push(Coalesce(list[..|list| - 1]), list[|list| - 1])
  }

  /** No two neighbours could still be merged. */
  ghost predicate Maximal(list: seq<Ext>) {
    forall i {:trigger MergeableAt(list, i)} | 0 <= i < |list| - 1 :: !MergeableAt(list, i)
  }

  ghost predicate MergeableAt(list: seq<Ext>, i: nat)
    requires i + 1 < |list|
  {
    Mergeable(list[i], list[i + 1])
  }

  // ----- what a logical block is stored as

  /** Where a logical block lives: in a physical block, or at a position of a compressed extent. */
  datatype Place = InBlock(lba: Lba) | InGroup(start: Lba, blocks: nat, at: nat)

  function PlaceIn(e: Ext, i: nat): Place
    requires e.ls <= i
  {
    if Plain(e) then InBlock(e.ps + (i - e.ls)) else InGroup(e.ps, e.pc, i - e.ls)
  }

  ghost predicate MapsAt(list: seq<Ext>, k: nat, i: nat, x: Place) {
    k < |list| && list[k].ls <= i < End(list[k]) && PlaceIn(list[k], i) == x
  }

  /** The list maps logical block i to place x. */
  ghost predicate Maps(list: seq<Ext>, i: nat, x: Place) {
    exists k :: MapsAt(list, k, i, x)
  }

  lemma {:induction false} MapsConcat(a: seq<Ext>, b: seq<Ext>, i: nat, x: Place)
    ensures Maps(a + b, i, x) <==> Maps(a, i, x) || Maps(b, i, x)
  {
    if Maps(a + b, i, x) {
      var k: nat :| MapsAt(a + b, k, i, x);
      if k < |a| {
        assert MapsAt(a, k, i, x);
      } else {
        assert MapsAt(b, k - |a|, i, x);
      }
    }
    if Maps(a, i, x) {
      var k: nat :| MapsAt(a, k, i, x);
      assert MapsAt(a + b, k, i, x);
    }
    if Maps(b, i, x) {
      var k: nat :| MapsAt(b, k, i, x);
      assert MapsAt(a + b, |a| + k, i, x);
    }
  }

  lemma {:induction false} MapsOne(e: Ext, i: nat, x: Place)
    ensures Maps([e], i, x) <==> e.ls <= i < End(e) && PlaceIn(e, i) == x
  {
    if e.ls <= i < End(e) && PlaceIn(e, i) == x {
      assert MapsAt([e], 0, i, x);
    }
  }

  /** Merging changes neither the mapping nor the blocks owned. */
  lemma {:induction false} MergeMaps(p: Ext, e: Ext, i: nat, x: Place)
    requires Mergeable(p, e)
    ensures Maps([Merge(p, e)], i, x) <==> Maps([p], i, x) || Maps([e], i, x)
  {
    MapsOne(p, i, x);
    MapsOne(e, i, x);
    MapsOne(Merge(p, e), i, x);
  }

  lemma {:induction false} MergeOwned(p: Ext, e: Ext)
    requires Mergeable(p, e)
    ensures Owned([Merge(p, e)]) == Owned([p]) + Owned([e])
  {
    OwnedOne(p);
    OwnedOne(e);
    OwnedOne(Merge(p, e));
    RangeSplit(p.ps, p.pc, p.pc + e.pc);
  }

  lemma {:induction false} PushMaps(acc: seq<Ext>, e: Ext, i: nat, x: Place)
    ensures Maps(Push(acc, e), i, x) <==> Maps(acc, i, x) || Maps([e], i, x)
  {
    if acc != [] && Mergeable(acc[|acc| - 1], e) {
      var a, p := acc[..|acc| - 1], acc[|acc| - 1];
      assert acc == a + [p];
      MapsConcat(a, [p], i, x);
      MapsConcat(a, [Merge(p, e)], i, x);
      MergeMaps(p, e, i, x);
    } else {
      MapsConcat(acc, [e], i, x);
    }
  }

  lemma {:induction false} PushOwned(acc: seq<Ext>, e: Ext)
    ensures Owned(Push(acc, e)) == Owned(acc) + Owned([e])
  {
    if acc != [] && Mergeable(acc[|acc| - 1], e) {
      var a, p := acc[..|acc| - 1], acc[|acc| - 1];
      assert acc == a + [p];
      OwnedConcat(a, [p]);
      OwnedConcat(a, [Merge(p, e)]);
      MergeOwned(p, e);
    } else {
      OwnedConcat(acc, [e]);
    }
  }

  lemma {:induction false} PushCovers(acc: seq<Ext>, e: Ext, x: nat, y: nat)
    requires Covers(acc, x, y) && e.ls == y && e.lc > 0
    ensures Covers(Push(acc, e), x, End(e))
  {
    if acc != [] && Mergeable(acc[|acc| - 1], e) {
      var a, p := acc[..|acc| - 1], acc[|acc| - 1];
      assert acc == a + [p];
      var m := CoversSplit(a, [p], x, y);
      assert Covers([Merge(p, e)], m, End(e)) by { assert [Merge(p, e)][1..] == [] && [p][1..] == []; }
      CoversConcat(a, [Merge(p, e)], x, m, End(e));
    } else {
      assert Covers([e], y, End(e)) by { assert [e][1..] == []; }
      CoversConcat(acc, [e], x, y, End(e));
    }
  }

  /** The invariants of an accumulated list, all of whose extents end by block n. */
  ghost predicate ListOk(list: seq<Ext>, n: nat) {
    AllOk(list) && Sorted(list) && Within(list, n) && Maximal(list)
  }

  lemma {:induction false} PushOk(acc: seq<Ext>, e: Ext, n: nat)
    requires ListOk(acc, e.ls) && ExtOk(e) && End(e) <= n
    ensures ListOk(Push(acc, e), n)
  {
    var t := Push(acc, e);
    if acc != [] && Mergeable(acc[|acc| - 1], e) {
      forall i | 0 <= i < |t| - 1 ensures !MergeableAt(t, i) {
        assert !MergeableAt(acc, i);
      }
    } else {
      forall i | 0 <= i < |t| - 1 ensures !MergeableAt(t, i) {
        if i < |acc| - 1 {
          assert !MergeableAt(acc, i);
        }
      }
    }
  }

  lemma {:induction false} CoalesceKeeps(list: seq<Ext>, n: nat)
    requires AllOk(list) && Sorted(list) && Within(list, n)
    ensures ListOk(Coalesce(list), n) && Owned(Coalesce(list)) == Owned(list)
    ensures forall i, x :: Maps(Coalesce(list), i, x) <==> Maps(list, i, x)
  {
    if list != [] {
      var a, e := list[..|list| - 1], list[|list| - 1];
      assert list == a + [e];
      forall i | 0 <= i < |a| ensures End(a[i]) <= e.ls {
        assert End(list[i]) <= list[|list| - 1].ls;
      }
      assert ExtOk(list[|list| - 1]);
      CoalesceKeeps(a, e.ls);
      PushOk(Coalesce(a), e, n);
      PushOwned(Coalesce(a), e);
      OwnedConcat(a, [e]);
      forall i, x ensures Maps(Coalesce(list), i, x) <==> Maps(list, i, x) {
        PushMaps(Coalesce(a), e, i, x);
        MapsConcat(a, [e], i, x);
      }
    }
  }

  /** Coalescing keeps the physical blocks, the order, the coverage and the logical-to-physical mapping,
      merges everything that can be merged, and never merges a compressed extent. */
  lemma {:induction false} CoalesceCorrect(list: seq<Ext>, n: nat)
    requires AllOk(list) && Sorted(list) && Within(list, n)
    ensures ListOk(Coalesce(list), n) && Owned(Coalesce(list)) == Owned(list)
    ensures forall i, x :: Maps(Coalesce(list), i, x) <==> Maps(list, i, x)
    ensures var r := Coalesce(list); forall i {:trigger r[i]} | 0 <= i < |r| - 1 ::
      !(r[i].lc == r[i].pc && r[i + 1].lc == r[i + 1].pc
        && r[i].ps + r[i].pc == r[i + 1].ps && r[i].ls + r[i].lc == r[i + 1].ls)
  {
    CoalesceKeeps(list, n);
    hide Coalesce, Owned, Maps;
    var r := Coalesce(list);
    forall i {:trigger r[i]} | 0 <= i < |r| - 1 ensures !Mergeable(r[i], r[i + 1]) {
      assert !MergeableAt(r, i);
    }
  }

  lemma {:induction false} CoalesceCovers(list: seq<Ext>, x: nat, y: nat)
    requires Covers(list, x, y)
    ensures Covers(Coalesce(list), x, y)
  {
    if list != [] {
      var a, e := list[..|list| - 1], list[|list| - 1];
      assert list == a + [e];
      var m := CoversSplit(a, [e], x, y);
      assert [e][1..] == [];
      CoalesceCovers(a, x, m);
      PushCovers(Coalesce(a), e, x, m);
    }
  }

  lemma {:induction false} CoalesceStep(list: seq<Ext>, i: nat)
    requires i < |list|
    ensures Coalesce(list[..i + 1]) == Push(Coalesce(list[..i]), list[i])
  {
    assert list[..i + 1][..i] == list[..i];
  }
}
