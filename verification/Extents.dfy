/** Extent lists: coverage, ownership of physical blocks, and the list surgery of writes and clones. */
module Extents {

  type Lba = nat

  /** OBMAFS3_COMPRESS_GROUP_BLOCKS */
  const GROUP := 16

  /** An extent_descriptor: logical blocks [ls, ls + lc) stored in physical blocks [ps, ps + pc). */
  datatype Ext = Ext(ls: nat, lc: nat, ps: Lba, pc: nat)

  function End(e: Ext): nat {
    e.ls + e.lc
  }

  /** Logical block b lies in the extent. */
  predicate In(e: Ext, b: nat) {
    e.ls <= b < End(e)
  }

  /** Some extent of the list holds block b. */
  ghost predicate Has(list: seq<Ext>, b: nat) {
    exists k :: 0 <= k < |list| && In(list[k], b)
  }

  /** Uncompressed extents are told apart only by their equal counts. */
  predicate Plain(e: Ext) {
    e.lc == e.pc
  }

  ghost predicate ExtOk(e: Ext) {
    0 < e.pc <= e.lc && (!Plain(e) ==> e.lc == GROUP)
  }

  ghost predicate AllOk(list: seq<Ext>) {
    forall i | 0 <= i < |list| :: ExtOk(list[i])
  }

  /** In order and without overlap; gaps are allowed. */
  ghost predicate Sorted(list: seq<Ext>) {
    forall i, j | 0 <= i < j < |list| :: End(list[i]) <= list[j].ls
  }

  /** Nothing of the list lies at or beyond block n. */
  predicate Within(list: seq<Ext>, n: nat) {
    forall i | 0 <= i < |list| :: End(list[i]) <= n
  }

  /** The list covers exactly the logical blocks [from, to), in order and without gaps. */
  predicate Covers(list: seq<Ext>, from: nat, to: nat) {
    if list == [] then from == to
    else list[0].ls == from && list[0].lc > 0 && Covers(list[1..], End(list[0]), to)
  }

  lemma {:induction false} CoversConcat(a: seq<Ext>, b: seq<Ext>, x: nat, y: nat, z: nat)
    requires Covers(a, x, y) && Covers(b, y, z)
    ensures Covers(a + b, x, z) && x <= z
  {
    CoversBounds(a, x, y);
    CoversBounds(b, y, z);
    if a == [] {
      assert a + b == b;
    } else {
      assert (a + b)[1..] == a[1..] + b;
      CoversConcat(a[1..], b, End(a[0]), y, z);
    }
  }

  lemma {:induction false} CoversBounds(a: seq<Ext>, x: nat, y: nat)
    requires Covers(a, x, y)
    ensures x <= y && (a != [] ==> x < y)
    ensures forall i | 0 <= i < |a| :: x <= a[i].ls < End(a[i]) <= y
    ensures Sorted(a)
  {
    if a != [] {
      CoversBounds(a[1..], End(a[0]), y);
      forall i | 1 <= i < |a| ensures End(a[0]) <= a[i].ls < End(a[i]) <= y {
        assert a[i] == a[1..][i - 1];
      }
      forall i, j | 0 <= i < j < |a| ensures End(a[i]) <= a[j].ls {
        if i > 0 {
          assert a[i] == a[1..][i - 1] && a[j] == a[1..][j - 1];
        }
      }
    }
  }

  /** The first k extents cover a prefix. */
  lemma {:induction false} CoversSplit(a: seq<Ext>, b: seq<Ext>, x: nat, z: nat) returns (y: nat)
    requires Covers(a + b, x, z)
    ensures Covers(a, x, y) && Covers(b, y, z)
  {
    if a == [] {
      assert a + b == b;
      y := x;
    } else {
      assert (a + b)[1..] == a[1..] + b;
      y := CoversSplit(a[1..], b, End(a[0]), z);
    }
  }

  /** Extent i of a gapless list starts where the extents before it end. */
  lemma {:induction false} CoversAt(a: seq<Ext>, x: nat, y: nat, i: nat)
    requires Covers(a, x, y) && i < |a|
    ensures Covers(a[..i], x, a[i].ls) && Covers(a[..i + 1], x, End(a[i]))
  {
    assert a == a[..i] + a[i..];
    var m := CoversSplit(a[..i], a[i..], x, y);
    assert a[i..][0] == a[i];
    assert a[..i + 1] == a[..i] + [a[i]];
    assert [a[i]][1..] == [];
    CoversConcat(a[..i], [a[i]], x, m, End(a[i]));
  }

  // ----- physical ownership

  function Range(start: nat, n: nat): seq<Lba> {
    seq(n, i => start + i)
  }

  /** The physical blocks referenced by a list, with multiplicity. */
  function Owned(list: seq<Ext>): multiset<Lba> {
    if list == [] then multiset{} else multiset(Range(list[0].ps, list[0].pc)) + Owned(list[1..])
  }

  lemma {:induction false} OwnedConcat(a: seq<Ext>, b: seq<Ext>)
    ensures Owned(a + b) == Owned(a) + Owned(b)
  {
    if a == [] {
      assert a + b == b;
    } else {
      assert (a + b)[1..] == a[1..] + b;
      OwnedConcat(a[1..], b);
    }
  }

  lemma {:induction false} OwnedOne(e: Ext)
    ensures Owned([e]) == multiset(Range(e.ps, e.pc))
  {
    assert [e][1..] == [];
  }

  lemma {:induction false} RangeSplit(start: nat, k: nat, n: nat)
    requires k <= n
    ensures multiset(Range(start, n)) == multiset(Range(start, k)) + multiset(Range(start + k, n - k))
  {
    assert Range(start, n) == Range(start, k) + Range(start + k, n - k);
  }

  lemma {:induction false} RangeFirst(start: nat, n: nat)
    requires n > 0
    ensures multiset(Range(start, n)) == multiset{start} + multiset(Range(start + 1, n - 1))
  {
    assert Range(start, n) == [start] + Range(start + 1, n - 1);
  }

  lemma {:induction false} RangeLast(start: nat, n: nat, last: Lba)
    requires n > 0 && last == start + n - 1
    ensures multiset(Range(start, n)) == multiset(Range(start, n - 1)) + multiset{last}
  {
    assert Range(start, n) == Range(start, n - 1) + [last];
  }

  lemma {:induction false} RangeCount(start: nat, n: nat, x: Lba)
    ensures multiset(Range(start, n))[x] == if start <= x < start + n then 1 else 0
  {
    if n > 0 {
      RangeCount(start, n - 1, x);
      RangeSplit(start, n - 1, n);
      assert Range(start + n - 1, 1) == [start + n - 1];
    }
  }

  // Adding and removing the blocks of a run one at a time.

  lemma {:induction false} PlusFirst(m: multiset<Lba>, start: nat, n: nat)
    requires n > 0
    ensures m + multiset(Range(start, n)) == (m + multiset(Range(start + 1, n - 1))) + multiset{start}
  {
    RangeFirst(start, n);
    hide Range;
  }

  lemma {:induction false} PlusLast(m: multiset<Lba>, start: nat, b: nat, x: Lba, n: nat)
    requires b < n && x == start + b && multiset(Range(start, n)) <= m
    ensures (m + multiset(Range(start, b))) + multiset{x} == m + multiset(Range(start, b + 1))
    ensures (m + multiset(Range(start, b)))[x] > 0
  {
    RangeLast(start, b + 1, x);
    RangeCount(start, n, x);
    hide Range;
    assert multiset(Range(start, n))[x] <= m[x];
  }

  lemma {:induction false} PlusNone(m: multiset<Lba>, start: nat)
    ensures m + multiset(Range(start, 0)) == m
  {
    assert Range(start, 0) == [];
  }

  lemma {:induction false} InRange(start: nat, n: nat, x: Lba)
    ensures x in Range(start, n) <==> start <= x < start + n
  {
    if start <= x < start + n {
      assert Range(start, n)[x - start] == x;
    }
  }

  /** An extent's blocks are owned by every list that contains it. */
  lemma {:induction false} OwnedMember(list: seq<Ext>, i: nat)
    requires i < |list|
    ensures multiset(Range(list[i].ps, list[i].pc)) <= Owned(list)
  {
    if i > 0 {
      assert list[i] == list[1..][i - 1];
      OwnedMember(list[1..], i - 1);
    }
  }

  // ----- trimming a list around a range

  /** What remains of an extent left of block x: all of it, the left part of an uncompressed one, or nothing. */
  function TrimLeft(e: Ext, x: nat): seq<Ext> {
    if End(e) <= x then [e]
    else if e.ls < x && Plain(e) then [Ext(e.ls, x - e.ls, e.ps, x - e.ls)]
    else []
  }

  /** What remains of an extent from block x on. */
  function TrimRight(e: Ext, x: nat): seq<Ext> {
    if e.ls >= x then [e]
    else if End(e) > x && Plain(e) then [Ext(x, End(e) - x, e.ps + (x - e.ls), End(e) - x)]
    else []
  }

  function KeepLeft(list: seq<Ext>, x: nat): seq<Ext> {
    if list == [] then [] else TrimLeft(list[0], x) + KeepLeft(list[1..], x)
  }

  function KeepRight(list: seq<Ext>, x: nat): seq<Ext> {
    if list == [] then [] else TrimRight(list[0], x) + KeepRight(list[1..], x)
  }

  /** The extent with blocks [gs, ge) cut out of it. */
  function CutExt(e: Ext, gs: nat, ge: nat): seq<Ext>
    requires gs < ge
  {
    if End(e) <= gs || e.ls >= ge then [e] else TrimLeft(e, gs) + TrimRight(e, ge)
  }

  /** Physical blocks of the extent released by the cut: always one contiguous run. */
  function CutStart(e: Ext, gs: nat, ge: nat): nat
    requires gs < ge
  {
    if End(e) <= gs || e.ls >= ge || !Plain(e) || e.ls >= gs then e.ps else e.ps + (gs - e.ls)
  }

  function CutCount(e: Ext, gs: nat, ge: nat): nat
    requires gs < ge
  {
    if End(e) <= gs || e.ls >= ge then 0
    else if !Plain(e) then e.pc
    else (if End(e) <= ge then End(e) else ge) - (if e.ls >= gs then e.ls else gs)
  }

  /** Distance by which block x lies inside the extent that starts at block ls. */
  function Inside(ls: nat, x: nat): nat {
    if ls < x then x - ls else 0
  }

  lemma {:induction false} OwnedTrim(e: Ext, gs: nat, ge: nat)
    requires gs < ge && Plain(e) && e.lc > 0 && !(End(e) <= gs || e.ls >= ge)
    ensures Owned(TrimLeft(e, gs)) == multiset(Range(e.ps, Inside(e.ls, gs)))
    ensures var x := if End(e) <= ge then End(e) else ge;
      Owned(TrimRight(e, ge)) == multiset(Range(e.ps + (x - e.ls), End(e) - x))
  {
    if e.ls < gs {
      OwnedOne(TrimLeft(e, gs)[0]);
    } else {
      assert Range(e.ps, 0) == [];
    }
    if End(e) > ge {
      OwnedOne(TrimRight(e, ge)[0]);
    } else {
      assert Range(e.ps + e.lc, 0) == [];
    }
  }

  lemma {:induction false} CutConserves(e: Ext, gs: nat, ge: nat)
    requires gs < ge && ExtOk(e)
    ensures Owned([e]) == Owned(CutExt(e, gs, ge)) + multiset(Range(CutStart(e, gs, ge), CutCount(e, gs, ge)))
    ensures AllOk(CutExt(e, gs, ge))
  {
    OwnedOne(e);
    if End(e) <= gs || e.ls >= ge {
      assert Range(CutStart(e, gs, ge), 0) == [];
    } else if !Plain(e) {
      assert CutExt(e, gs, ge) == [];
      assert CutStart(e, gs, ge) == e.ps && CutCount(e, gs, ge) == e.pc;
    } else {
      PlainCutConserves(e, gs, ge);
    }
  }

  lemma {:induction false} PlainCutConserves(e: Ext, gs: nat, ge: nat)
    requires gs < ge && Plain(e) && e.lc > 0 && !(End(e) <= gs || e.ls >= ge)
    ensures Owned([e]) == Owned(CutExt(e, gs, ge)) + multiset(Range(CutStart(e, gs, ge), CutCount(e, gs, ge)))
  {
    hide Owned, Range;
    var a, n := Inside(e.ls, gs), CutCount(e, gs, ge);
    OwnedOne(e);
    RangeSplit(e.ps, a, e.pc);
    RangeSplit(e.ps + a, n, e.pc - a);
    OwnedConcat(TrimLeft(e, gs), TrimRight(e, ge));
    OwnedTrim(e, gs, ge);
    assert CutStart(e, gs, ge) == e.ps + a;
    Regroup(Owned([e]), Owned(TrimLeft(e, gs)), multiset(Range(e.ps + a, e.pc - a)),
            multiset(Range(e.ps + a, n)), Owned(TrimRight(e, ge)));
  }

  lemma {:induction false} Regroup<T>(x: multiset<T>, a: multiset<T>, y: multiset<T>, b: multiset<T>, c: multiset<T>)
    requires x == a + y && y == b + c
    ensures x == (a + c) + b
  {
  }

  lemma {:induction false} Regroup4<T>(a: multiset<T>, b: multiset<T>, c: multiset<T>, d: multiset<T>)
    ensures (a + b) + (c + d) == (a + c) + (b + d)
  {
  }

  function CutAll(list: seq<Ext>, gs: nat, ge: nat): seq<Ext>
    requires gs < ge
  {
    if list == [] then [] else CutAll(list[..|list| - 1], gs, ge) + CutExt(list[|list| - 1], gs, ge)
  }

  function CutOwned(list: seq<Ext>, gs: nat, ge: nat): multiset<Lba>
    requires gs < ge
  {
    if list == [] then multiset{}
    else CutOwned(list[..|list| - 1], gs, ge)
         + multiset(Range(CutStart(list[|list| - 1], gs, ge), CutCount(list[|list| - 1], gs, ge)))
  }

  lemma {:induction false} CutAllConserves(list: seq<Ext>, gs: nat, ge: nat)
    requires gs < ge && AllOk(list)
    ensures Owned(list) == Owned(CutAll(list, gs, ge)) + CutOwned(list, gs, ge)
    ensures AllOk(CutAll(list, gs, ge))
  {
    if list != [] {
      hide Owned, Range, CutExt, CutStart, CutCount;
      var a, e := list[..|list| - 1], list[|list| - 1];
      assert list == a + [e];
      CutAllConserves(a, gs, ge);
      CutConserves(e, gs, ge);
      OwnedConcat(a, [e]);
      OwnedConcat(CutAll(a, gs, ge), CutExt(e, gs, ge));
      Regroup4(Owned(CutAll(a, gs, ge)), CutOwned(a, gs, ge), Owned(CutExt(e, gs, ge)),
               multiset(Range(CutStart(e, gs, ge), CutCount(e, gs, ge))));
    }
  }

  lemma {:induction false} Assoc<T>(a: seq<T>, b: seq<T>, c: seq<T>)
    ensures (a + b) + c == a + (b + c)
  {
  }

  lemma {:induction false} KeepConcat(a: seq<Ext>, b: seq<Ext>, x: nat)
    ensures KeepLeft(a + b, x) == KeepLeft(a, x) + KeepLeft(b, x)
    ensures KeepRight(a + b, x) == KeepRight(a, x) + KeepRight(b, x)
  {
    if a == [] {
      assert a + b == b;
    } else {
      assert (a + b)[1..] == a[1..] + b;
      KeepConcat(a[1..], b, x);
      hide TrimLeft, TrimRight;
      Assoc(TrimLeft(a[0], x), KeepLeft(a[1..], x), KeepLeft(b, x));
      Assoc(TrimRight(a[0], x), KeepRight(a[1..], x), KeepRight(b, x));
    }
  }

  /** Cutting a sorted list keeps its left part and its right part. */
  lemma {:induction false} CutIsKeep(list: seq<Ext>, gs: nat, ge: nat)
    requires gs < ge && Sorted(list) && AllOk(list)
    ensures CutAll(list, gs, ge) == KeepLeft(list, gs) + KeepRight(list, ge)
  {
    if list != [] {
      var a, e := list[..|list| - 1], list[|list| - 1];
      assert list == a + [e];
      CutIsKeep(a, gs, ge);
      KeepConcat(a, [e], gs);
      KeepConcat(a, [e], ge);
      assert KeepLeft([e], gs) == TrimLeft(e, gs) && KeepRight([e], ge) == TrimRight(e, ge);
      CutIsTrim(e, gs, ge);
      if TrimLeft(e, gs) != [] {
        forall i | 0 <= i < |a| ensures End(a[i]) < ge {
          assert End(list[i]) <= list[|list| - 1].ls;
        }
        NothingRight(a, ge);
      }
      Shuffle(KeepLeft(a, gs), KeepRight(a, ge), TrimLeft(e, gs), TrimRight(e, ge));
    }
  }

  lemma {:induction false} Shuffle<T>(k1: seq<T>, k2: seq<T>, t1: seq<T>, t2: seq<T>)
    requires t1 == [] || k2 == []
    ensures (k1 + k2) + (t1 + t2) == (k1 + t1) + (k2 + t2)
  {
  }

  lemma {:induction false} CutIsTrim(e: Ext, gs: nat, ge: nat)
    requires gs < ge && e.lc > 0
    ensures CutExt(e, gs, ge) == TrimLeft(e, gs) + TrimRight(e, ge)
  {
  }

  lemma {:induction false} NothingRight(list: seq<Ext>, x: nat)
    requires forall i | 0 <= i < |list| :: End(list[i]) < x
    ensures KeepRight(list, x) == []
  {
    if list != [] {
      NothingRight(list[1..], x);
    }
  }

  lemma {:induction false} NothingLeft(list: seq<Ext>, x: nat)
    requires forall i | 0 <= i < |list| :: list[i].ls >= x && list[i].lc > 0
    ensures KeepLeft(list, x) == []
  {
    if list != [] {
      NothingLeft(list[1..], x);
    }
  }

  lemma {:induction false} AllKept(list: seq<Ext>, x: nat)
    requires forall i | 0 <= i < |list| :: list[i].ls >= x
    ensures KeepRight(list, x) == list
  {
    if list != [] {
      AllKept(list[1..], x);
    }
  }

  /** No compressed extent is cut at block x. */
  ghost predicate Uncut(list: seq<Ext>, x: nat) {
    forall i | 0 <= i < |list| :: Plain(list[i]) || End(list[i]) <= x || list[i].ls >= x
  }

  lemma {:induction false} KeepLeftCovers(list: seq<Ext>, from: nat, to: nat, x: nat)
    requires Covers(list, from, to) && from <= x <= to && Uncut(list, x)
    ensures Covers(KeepLeft(list, x), from, x)
  {
    if list != [] {
      var e, rest := list[0], list[1..];
      CoversBounds(rest, End(e), to);
      if End(e) <= x {
        KeepLeftCovers(rest, End(e), to, x);
        assert KeepLeft(list, x)[1..] == KeepLeft(rest, x);
      } else {
        NothingLeft(rest, x);
        if from < x {
          var k := TrimLeft(e, x);
          assert KeepLeft(list, x) == k && k[1..] == [];
        }
      }
    }
  }

  lemma {:induction false} KeepRightCovers(list: seq<Ext>, from: nat, to: nat, x: nat)
    requires Covers(list, from, to) && from <= x && Uncut(list, x)
    ensures if x < to then Covers(KeepRight(list, x), x, to) else KeepRight(list, x) == []
  {
    if list != [] {
      var e, rest := list[0], list[1..];
      CoversBounds(rest, End(e), to);
      if End(e) <= x {
        KeepRightCovers(rest, End(e), to, x);
        assert TrimRight(e, x) == [];
        assert KeepRight(list, x) == KeepRight(rest, x);
      } else {
        AllKept(rest, x);
        assert KeepRight(list, x)[1..] == rest;
      }
    }
  }

  /** One step of cutting a list in place. */
  lemma {:induction false} CutStep(list: seq<Ext>, k: nat, gs: nat, ge: nat, cur: seq<Ext>, m: multiset<Lba>)
    requires gs < ge && k < |list| && AllOk(list)
    requires cur == CutAll(list[..k], gs, ge) + list[k..]
    ensures var n := |CutAll(list[..k], gs, ge)|; var e := list[k];
      var next := cur[..n] + CutExt(e, gs, ge) + cur[n + 1..];
      && n < |cur| && cur[n] == e && next == CutAll(list[..k + 1], gs, ge) + list[k + 1..]
      && |CutAll(list[..k + 1], gs, ge)| == n + |CutExt(e, gs, ge)|
      && m + Owned(cur) == (m + Owned(next)) + multiset(Range(CutStart(e, gs, ge), CutCount(e, gs, ge)))
  {
    CutStepList(list, k, gs, ge, cur);
    CutStepOwned(list, k, gs, ge, cur, m);
    hide Owned, Range, CutExt, CutStart, CutCount, CutAll, AllOk;
  }

  lemma {:induction false} CutStepList(list: seq<Ext>, k: nat, gs: nat, ge: nat, cur: seq<Ext>)
    requires gs < ge && k < |list| && cur == CutAll(list[..k], gs, ge) + list[k..]
    ensures var n := |CutAll(list[..k], gs, ge)|; var e := list[k];
      var next := cur[..n] + CutExt(e, gs, ge) + cur[n + 1..];
      && n < |cur| && cur[n] == e && next == CutAll(list[..k + 1], gs, ge) + list[k + 1..]
      && |CutAll(list[..k + 1], gs, ge)| == n + |CutExt(e, gs, ge)|
  {
    CutNext(list, k, gs, ge);
    hide CutExt, CutAll;
    Around(list, k, CutAll(list[..k], gs, ge), CutExt(list[k], gs, ge));
  }

  lemma {:induction false} CutStepOwned(list: seq<Ext>, k: nat, gs: nat, ge: nat, cur: seq<Ext>, m: multiset<Lba>)
    requires gs < ge && k < |list| && AllOk(list) && cur == CutAll(list[..k], gs, ge) + list[k..]
    ensures m + Owned(cur) == (m + Owned(CutAll(list[..k + 1], gs, ge) + list[k + 1..]))
      + multiset(Range(CutStart(list[k], gs, ge), CutCount(list[k], gs, ge)))
  {
    var a, e, b := CutAll(list[..k], gs, ge), list[k], list[k + 1..];
    assert ExtOk(list[k]);
    CutConserves(e, gs, ge);
    CutNext(list, k, gs, ge);
    FirstOf(list, k);
    hide Owned, Range, CutExt, CutStart, CutCount, CutAll, AllOk, ExtOk;
    OwnedAround(m, a, e, b, CutExt(e, gs, ge), multiset(Range(CutStart(e, gs, ge), CutCount(e, gs, ge))));
  }

  lemma {:induction false} CutNext(list: seq<Ext>, k: nat, gs: nat, ge: nat)
    requires gs < ge && k < |list|
    ensures CutAll(list[..k + 1], gs, ge) == CutAll(list[..k], gs, ge) + CutExt(list[k], gs, ge)
  {
    hide CutExt;
    assert list[..k + 1][..k] == list[..k];
  }

  lemma {:induction false} FirstOf<T>(list: seq<T>, k: nat)
    requires k < |list|
    ensures list[k..] == [list[k]] + list[k + 1..]
  {
  }

  lemma {:induction false} Around<T>(list: seq<T>, k: nat, a: seq<T>, x: seq<T>)
    requires k < |list|
    ensures var s := a + list[k..];
      |a| < |s| && s[|a|] == list[k] && s[..|a|] + x + s[|a| + 1..] == (a + x) + list[k + 1..]
  {
    var s := a + list[k..];
    assert s[..|a|] == a && s[|a| + 1..] == list[k + 1..];
  }

  lemma {:induction false} OwnedAround(m: multiset<Lba>, a: seq<Ext>, e: Ext, b: seq<Ext>, x: seq<Ext>,
                                       r: multiset<Lba>)
    requires Owned([e]) == Owned(x) + r
    ensures m + Owned(a + ([e] + b)) == (m + Owned(a + x + b)) + r
  {
    hide Owned;
    OwnedConcat(a, [e] + b);
    OwnedConcat([e], b);
    OwnedConcat(a + x, b);
    OwnedConcat(a, x);
    CutSum(m, Owned(a), Owned([e]), Owned(b), Owned(x), r);
  }

  lemma {:induction false} CutSum<T>(m: multiset<T>, a: multiset<T>, e: multiset<T>, b: multiset<T>, x: multiset<T>,
                                     r: multiset<T>)
    requires e == x + r
    ensures m + (a + (e + b)) == (m + ((a + x) + b)) + r
  {
  }

  lemma {:induction false} CutNone(gs: nat, ge: nat)
    requires gs < ge
    ensures CutAll([], gs, ge) == []
  {
  }

  /** Walking a gapless list extent by extent. */
  lemma {:induction false} NextExtent(list: seq<Ext>, cov: nat, i: nat, pos: nat)
    requires Covers(list, 0, cov) && i < |list| && Covers(list[..i], 0, pos)
    ensures list[i].ls == pos && pos < End(list[i]) <= cov && Covers(list[..i + 1], 0, End(list[i]))
  {
    CoversAt(list, 0, cov, i);
    CoversEnd(list[..i], 0, pos, list[i].ls);
    CoversBounds(list, 0, cov);
  }

  lemma {:induction false} CoversEnd(list: seq<Ext>, from: nat, x: nat, y: nat)
    requires Covers(list, from, x) && Covers(list, from, y)
    ensures x == y
  {
    if list != [] {
      CoversEnd(list[1..], End(list[0]), x, y);
    }
  }

  // ----- how many blocks a list holds

  function LogicalSum(list: seq<Ext>): nat {
    if list == [] then 0 else list[0].lc + LogicalSum(list[1..])
  }

  lemma {:induction false} SumOfCovers(list: seq<Ext>, from: nat, to: nat)
    requires Covers(list, from, to)
    ensures LogicalSum(list) == to - from
  {
    if list != [] {
      SumOfCovers(list[1..], End(list[0]), to);
    }
  }

  lemma {:induction false} SumConcat(a: seq<Ext>, b: seq<Ext>)
    ensures LogicalSum(a + b) == LogicalSum(a) + LogicalSum(b)
  {
    if a == [] {
      assert a + b == b;
    } else {
      assert (a + b)[1..] == a[1..] + b;
      SumConcat(a[1..], b);
    }
  }

  // ----- which blocks a list holds

  lemma {:induction false} HasConcat(a: seq<Ext>, b: seq<Ext>, x: nat)
    ensures Has(a + b, x) <==> Has(a, x) || Has(b, x)
  {
    var t := a + b;
    if k :| 0 <= k < |t| && In(t[k], x) {
      if k < |a| {
        assert In(a[k], x);
      } else {
        assert In(b[k - |a|], x);
      }
    }
    if k :| 0 <= k < |a| && In(a[k], x) {
      assert In(t[k], x);
    }
    if k :| 0 <= k < |b| && In(b[k], x) {
      assert In(t[|a| + k], x);
    }
  }

  lemma {:induction false} HasCovered(list: seq<Ext>, from: nat, to: nat, b: nat)
    requires Covers(list, from, to)
    ensures Has(list, b) <==> from <= b < to
  {
    CoversBounds(list, from, to);
    if from <= b < to {
      if End(list[0]) <= b {
        HasCovered(list[1..], End(list[0]), to, b);
        var k :| 0 <= k < |list[1..]| && In(list[1..][k], b);
        assert In(list[k + 1], b);
      } else {
        assert In(list[0], b);
      }
    }
  }

  // ----- trimming twice

  lemma {:induction false} AllLeft(list: seq<Ext>, x: nat)
    requires forall i | 0 <= i < |list| :: End(list[i]) <= x
    ensures KeepLeft(list, x) == list
  {
    if list != [] {
      AllLeft(list[1..], x);
    }
  }

  lemma {:induction false} NoneRight(list: seq<Ext>, x: nat)
    requires forall i | 0 <= i < |list| :: End(list[i]) <= x && list[i].lc > 0
    ensures KeepRight(list, x) == []
  {
    if list != [] {
      NoneRight(list[1..], x);
    }
  }

  lemma {:induction false} TrimTwice(e: Ext, x: nat, y: nat)
    requires x <= y && e.lc > 0
    ensures KeepRight(TrimRight(e, x), y) == TrimRight(e, y)
  {
    var t := TrimRight(e, x);
    if t != [] {
      assert t[1..] == [];
      assert KeepRight(t, y) == TrimRight(t[0], y);
    }
  }

  lemma {:induction false} KeepRightTwice(list: seq<Ext>, x: nat, y: nat)
    requires x <= y && forall i | 0 <= i < |list| :: list[i].lc > 0
    ensures KeepRight(KeepRight(list, x), y) == KeepRight(list, y)
  {
    if list != [] {
      hide TrimRight;
      TrimTwice(list[0], x, y);
      KeepRightTwice(list[1..], x, y);
      KeepConcat(TrimRight(list[0], x), KeepRight(list[1..], x), y);
    }
  }
}
