/** Appending groups to a file: what it does to the extents, to their blocks and to the content. */
module FileAppends {
  import opened Blocks
  import opened Extents
  import opened Coalescing
  import opened FileLayout
  import opened FileContent
  import opened FileWrites

  /** The write starts at or past the end of the file and behind all its groups. */
  predicate PureAppend(size: nat, offset: nat, bs: nat)
    requires bs > 0
  {
    offset >= size && (CeilDiv(size, bs) == 0 || offset / bs / GROUP >= CeilDiv(CeilDiv(size, bs), GROUP))
  }

  /** A pure append touches only groups behind the existing extents, and without a hole it starts exactly
      at their end. */
  lemma {:induction false} BeginAppend(f: File, t: Touched, bs: nat, offset: nat, len: nat)
    requires bs > 0 && len > 0 && t == TouchedBy(bs, offset, len, f.size) && PureAppend(f.size, offset, bs)
    requires Within(Collect(f), CeilDiv(f.size, bs))
    ensures TouchedOk(t, bs, offset, len, f.size)
    ensures t.oldBlocks <= t.first * GROUP && Within(Collect(f), t.first * GROUP)
    ensures offset <= f.size ==> t.oldBlocks == t.first * GROUP
  {
    hide Collect;
    TouchedGroups(bs, offset, len, f.size);
    CeilDivBounds(t.oldBlocks, GROUP);
  }

  // ----- appended groups

  /** n zero blocks. */
  function Blank(n: nat, bs: nat): seq<Block> {
    seq(n, _ => Zeros(bs))
  }

  /** What appended groups are made of: the new bytes over zeros. */
  function Fresh(n: nat, bs: nat, offset: nat, buf: Bytes): seq<Block> {
    OverlayBlocks(Blank(n, bs), 0, offset, buf)
  }

  lemma {:induction false} BlankSlice(n: nat, bs: nat, gs: nat, ge: nat)
    requires gs <= ge <= n
    ensures Blank(n, bs)[gs..ge] == Blank(ge - gs, bs) && AllSized(Blank(n, bs), bs)
  {
  }

  /** Behind the old content, the written content is made of the new bytes over zeros; before it nothing changes. */
  lemma {:induction false} WrittenTail(x: seq<Block>, bs: nat, k: nat, offset: nat, buf: Bytes)
    requires AllSized(x, bs) && k <= |x| && ZeroFrom(x, k, bs) && k * bs <= offset
    ensures var y, z := OverlayBlocks(x, 0, offset, buf), Fresh(|x|, bs, offset, buf);
      |y| == |z| == |x| && AllSized(y, bs) && y[..k] == x[..k] && y[k..] == z[k..]
  {
    hide OverlayBlocks;
    var a, a', b := x[..k], Blank(k, bs), Blank(|x| - k, bs);
    assert x == a + b && Blank(|x|, bs) == a' + b;
    JoinLength(a, bs);
    JoinLength(a', bs);
    OverlayBlocksConcat(a, b, 0, offset, buf);
    OverlayBlocksConcat(a', b, 0, offset, buf);
    OverlayOutside(a, 0, offset, buf);
    OverlayJoin(x, 0, offset, buf);
    OverlayJoin(Blank(|x|, bs), 0, offset, buf);
    OverlayJoin(a', 0, offset, buf);
  }

  /** Extents within a range show any content that agrees there. */
  lemma {:induction false} ShowsAgreed(dev: Device, c: Codec, list: seq<Ext>, x: seq<Block>, y: seq<Block>, a: nat,
                                       b: nat)
    requires Shows(dev, c, list, x) && a <= b <= |x| == |y| && x[a..b] == y[a..b]
    requires forall i | 0 <= i < |list| :: a <= list[i].ls && End(list[i]) <= b
    ensures Shows(dev, c, list, y)
  {
    hide ExtShows;
    forall i | 0 <= i < |list|
      ensures End(list[i]) <= |y| && y[list[i].ls..End(list[i])] == x[list[i].ls..End(list[i])]
    {
      var e := list[i];
      SliceOfSlice(x, a, b, e.ls - a, End(e) - a);
      SliceOfSlice(y, a, b, e.ls - a, End(e) - a);
    }
    ShowsPrefix(dev, c, list, x, y);
  }

  // ----- adding extents one after another

  /** Adding an extent beyond the end keeps the layout, the order and the ownership. */
  lemma {:induction false} AppendedFile(f: File, k: nat, e: Ext, m: multiset<Lba>)
    requires LayoutOk(f) && PrefixUsed(f.slots, k) && ExtOk(e)
    requires AllOk(Collect(f)) && Sorted(Collect(f)) && Within(Collect(f), e.ls)
    ensures var f' := Appended(f, k, e);
      && f'.size == f.size && LayoutOk(f') && PrefixUsed(f'.slots, if k < INLINE then k + 1 else k)
      && AllOk(Collect(f')) && Sorted(Collect(f')) && Within(Collect(f'), End(e))
      && (m + Owned(Collect(f))) + multiset(Range(e.ps, e.pc)) == m + Owned(Collect(f'))
  {
    hide Owned, Collect, InlineTotal, OverInsert, LayoutOk, Range;
    AppendedCollect(f, k, e);
    var list, at := Collect(f), if k < INLINE then InlineTotal(f.slots) else e.ls;
    var e' := e.(ls := at);
    AppendEnds(f, k, e);
    ConcatSorted(list, [e']);
    OwnedConcat(list, [e']);
    OwnedOne(e');
    assert (m + Owned(list)) + multiset(Range(e.ps, e.pc)) == m + (Owned(list) + multiset(Range(e.ps, e.pc)));
  }

  /** The implied offset of a new inline extent lies behind all existing extents. */
  lemma {:induction false} AppendEnds(f: File, k: nat, e: Ext)
    requires LayoutOk(f) && PrefixUsed(f.slots, k) && AllOk(Collect(f)) && Sorted(Collect(f))
    requires Within(Collect(f), e.ls)
    ensures var at := if k < INLINE then InlineTotal(f.slots) else e.ls;
      forall i | 0 <= i < |Collect(f)| :: End(Collect(f)[i]) <= at
  {
    if k < INLINE {
      if f.over != [] {
        PrefixUnique(f.slots, k, INLINE);
      }
      assert Collect(f) == InlineExts(f.slots, 0);
      InlineCovers(f.slots, 0);
      CoversBounds(Collect(f), 0, InlineTotal(f.slots));
    }
  }

  /** In a file without holes the implied offset is the real one. */
  lemma {:induction false} AppendedExact(f: File, k: nat, e: Ext)
    requires LayoutOk(f) && PrefixUsed(f.slots, k) && ExtOk(e) && AllOk(Collect(f)) && Covers(Collect(f), 0, e.ls)
    ensures Collect(Appended(f, k, e)) == Collect(f) + [e]
  {
    hide Collect, InlineTotal, OverInsert, LayoutOk;
    CoversBounds(Collect(f), 0, e.ls);
    AppendedCollect(f, k, e);
  }

  function Least(a: nat, b: nat): nat {
    if a < b then a else b
  }

  /** The file with the extents added one after another, the first k inline slots being in use before. */
  function AppendAll(f: File, k: nat, news: seq<Ext>): (r: File)
    requires |f.slots| == INLINE
    ensures |r.slots| == INLINE && r.size == f.size
  {
    if news == [] then f
    else Appended(AppendAll(f, k, news[..|news| - 1]), Least(k + |news| - 1, INLINE), news[|news| - 1])
  }

  lemma {:induction false} AppendNext(f: File, k: nat, news: seq<Ext>, e: Ext)
    requires |f.slots| == INLINE
    ensures AppendAll(f, k, news + [e]) == Appended(AppendAll(f, k, news), Least(k + |news|, INLINE), e)
  {
    assert (news + [e])[..|news|] == news;
  }

  lemma {:induction false} AppendAllLayout(f: File, k: nat, news: seq<Ext>)
    requires LayoutOk(f) && PrefixUsed(f.slots, k) && AllOk(news)
    ensures var r := AppendAll(f, k, news); LayoutOk(r) && PrefixUsed(r.slots, Least(k + |news|, INLINE))
  {
    if news != [] {
      var n := |news| - 1;
      AppendAllLayout(f, k, news[..n]);
      assert ExtOk(news[n]);
      AppendedLayout(AppendAll(f, k, news[..n]), Least(k + n, INLINE), news[n]);
    }
  }

  lemma {:induction false} AppendedLayout(f: File, k: nat, e: Ext)
    requires LayoutOk(f) && PrefixUsed(f.slots, k) && ExtOk(e)
    ensures LayoutOk(Appended(f, k, e)) && PrefixUsed(Appended(f, k, e).slots, if k < INLINE then k + 1 else k)
  {
    if k < INLINE {
      if f.over != [] {
        PrefixUnique(f.slots, k, INLINE);
      }
      InlineAppend(f.slots, k, RunOf(e), 0);
    }
  }

  // ----- overflow keys

  /** Overflow records are stored in key order, one per key. */
  ghost predicate KeysAscend(over: seq<Ext>) {
    forall i, j | 0 <= i < j < |over| :: over[i].ls < over[j].ls
  }

  ghost predicate HasKey(over: seq<Ext>, ls: nat) {
    exists i :: 0 <= i < |over| && over[i].ls == ls
  }

  /** The record that an insert at this key replaces. */
  function Replaced(over: seq<Ext>, ls: nat): seq<Ext> {
    if over == [] || ls < over[0].ls then []
    else if ls == over[0].ls then [over[0]]
    else Replaced(over[1..], ls)
  }

  lemma {:induction false} AscendTail(over: seq<Ext>)
    requires over != [] && KeysAscend(over)
    ensures KeysAscend(over[1..]) && forall i | 0 <= i < |over[1..]| :: over[0].ls < over[1..][i].ls
  {
    var rest := over[1..];
    assert forall i {:trigger rest[i]} | 0 <= i < |rest| :: rest[i] == over[i + 1];
  }

  lemma {:induction false} KeyTail(over: seq<Ext>, ls: nat)
    requires over != []
    ensures HasKey(over, ls) <==> over[0].ls == ls || HasKey(over[1..], ls)
  {
    if HasKey(over[1..], ls) {
      var i :| 0 <= i < |over[1..]| && over[1..][i].ls == ls;
      assert over[i + 1].ls == ls;
    }
    if i :| 0 <= i < |over| && over[i].ls == ls {
      assert i > 0 ==> over[1..][i - 1] == over[i];
    }
  }

  lemma {:induction false} InsertKeys(over: seq<Ext>, e: Ext, ls: nat)
    requires KeysAscend(over)
    ensures HasKey(OverInsert(over, e), ls) <==> ls == e.ls || HasKey(over, ls)
  {
    var t := OverInsert(over, e);
    KeyTail(t, ls);
    if over != [] {
      KeyTail(over, ls);
      AscendTail(over);
      if over[0].ls < e.ls {
        InsertKeys(over[1..], e, ls);
        assert t[1..] == OverInsert(over[1..], e);
      } else if over[0].ls == e.ls {
        assert t[1..] == over[1..];
      } else {
        assert t[1..] == over;
      }
    } else {
      assert t[1..] == [];
    }
  }

  lemma {:induction false} InsertAscends(over: seq<Ext>, e: Ext)
    requires KeysAscend(over) && AllOk(over) && ExtOk(e)
    ensures KeysAscend(OverInsert(over, e)) && AllOk(OverInsert(over, e))
  {
    var t := OverInsert(over, e);
    if over != [] {
      assert ExtOk(over[0]);
      AscendTail(over);
      var rest := over[1..];
      assert AllOk(rest) by { assert forall i {:trigger rest[i]} | 0 <= i < |rest| :: rest[i] == over[i + 1]; }
      if over[0].ls < e.ls {
        InsertAscends(rest, e);
        var u := OverInsert(rest, e);
        forall i | 0 <= i < |u| ensures over[0].ls < u[i].ls {
          InsertKeys(rest, e, u[i].ls);
          assert HasKey(u, u[i].ls);
        }
        PrependAscends(over[0], u);
      } else if over[0].ls == e.ls {
        PrependAscends(e, rest);
      } else {
        PrependAscends(e, over);
      }
    }
  }

  lemma {:induction false} PrependAscends(e: Ext, over: seq<Ext>)
    requires ExtOk(e) && KeysAscend(over) && AllOk(over) && forall i | 0 <= i < |over| :: e.ls < over[i].ls
    ensures KeysAscend([e] + over) && AllOk([e] + over)
  {
  }

  /** An insert adds the new extent's blocks and loses those of the record it replaces. */
  lemma {:induction false} InsertOwned(over: seq<Ext>, e: Ext)
    requires KeysAscend(over)
    ensures Owned(OverInsert(over, e)) + Owned(Replaced(over, e.ls)) == Owned(over) + multiset(Range(e.ps, e.pc))
    ensures Replaced(over, e.ls) != [] <==> HasKey(over, e.ls)
    ensures forall i | 0 <= i < |Replaced(over, e.ls)| :: Replaced(over, e.ls)[i] in over
  {
    if over == [] {
      OwnedOne(e);
    } else {
      var rest := over[1..];
      AscendTail(over);
      KeyTail(over, e.ls);
      assert over == [over[0]] + rest;
      if over[0].ls < e.ls {
        InsertOwned(rest, e);
        InsertOwnedLater(over, e);
      } else if over[0].ls == e.ls {
        InsertOwnedHere(over, e);
      } else {
        InsertOwnedFirst(over, e);
      }
    }
  }

  lemma {:induction false} InsertOwnedLater(over: seq<Ext>, e: Ext)
    requires over != [] && over[0].ls < e.ls
    requires Owned(OverInsert(over[1..], e)) + Owned(Replaced(over[1..], e.ls))
      == Owned(over[1..]) + multiset(Range(e.ps, e.pc))
    ensures Owned(OverInsert(over, e)) + Owned(Replaced(over, e.ls)) == Owned(over) + multiset(Range(e.ps, e.pc))
  {
    var u := OverInsert(over[1..], e);
    assert over == [over[0]] + over[1..] && OverInsert(over, e) == [over[0]] + u;
    OwnedConcat([over[0]], over[1..]);
    OwnedConcat([over[0]], u);
    Prefixed(Owned([over[0]]), Owned(u), Owned(Replaced(over[1..], e.ls)), Owned(over[1..]),
             multiset(Range(e.ps, e.pc)));
  }

  lemma {:induction false} Prefixed(o: multiset<Lba>, u: multiset<Lba>, r: multiset<Lba>, v: multiset<Lba>,
                                    n: multiset<Lba>)
    requires u + r == v + n
    ensures (o + u) + r == (o + v) + n
  {
    assert (o + u) + r == o + (u + r) && (o + v) + n == o + (v + n);
  }

  lemma {:induction false} InsertOwnedHere(over: seq<Ext>, e: Ext)
    requires over != [] && over[0].ls == e.ls
    ensures Owned(OverInsert(over, e)) + Owned(Replaced(over, e.ls)) == Owned(over) + multiset(Range(e.ps, e.pc))
  {
    assert over == [over[0]] + over[1..] && OverInsert(over, e) == [e] + over[1..];
    OwnedConcat([over[0]], over[1..]);
    OwnedConcat([e], over[1..]);
    OwnedOne(e);
    hide Owned, Range;
  }

  lemma {:induction false} InsertOwnedFirst(over: seq<Ext>, e: Ext)
    requires over != [] && e.ls < over[0].ls
    ensures Owned(OverInsert(over, e)) + Owned(Replaced(over, e.ls)) == Owned(over) + multiset(Range(e.ps, e.pc))
  {
    assert OverInsert(over, e) == [e] + over && Replaced(over, e.ls) == [];
    OwnedConcat([e], over);
    OwnedOne(e);
    var a, b, c := Owned(over), multiset(Range(e.ps, e.pc)), Owned(Replaced(over, e.ls));
    assert c == multiset{};
    assert Owned(OverInsert(over, e)) == b + a;
    Swapped(a, b, c);
  }

  lemma {:induction false} Swapped(a: multiset<Lba>, b: multiset<Lba>, c: multiset<Lba>)
    requires c == multiset{}
    ensures (b + a) + c == a + b
  {
  }

  // ----- the blocks of appended extents

  /** Everything the references of a file need: its layout, its extents and its overflow keys are in order. */
  ghost predicate LooseFile(f: File) {
    LayoutOk(f) && AllOk(Collect(f)) && AllOk(f.over) && KeysAscend(f.over)
  }

  lemma {:induction false} SortedIsLoose(f: File)
    requires LayoutOk(f) && AllOk(Collect(f)) && Sorted(Collect(f))
    ensures LooseFile(f)
  {
    var inl, over, list := InlineExts(f.slots, 0), f.over, Collect(f);
    forall i | 0 <= i < |over| ensures ExtOk(over[i]) {
      assert list[|inl| + i] == over[i] && ExtOk(list[|inl| + i]);
    }
    forall i, j | 0 <= i < j < |over| ensures over[i].ls < over[j].ls {
      assert list[|inl| + i] == over[i] && list[|inl| + j] == over[j];
      assert End(list[|inl| + i]) <= list[|inl| + j].ls;
    }
  }

  /** Adding one extent keeps the file loose; its blocks are added, and those of an overflow record with the
      same key are lost. */
  lemma {:induction false} AppendedLoose(f: File, k: nat, e: Ext)
    requires LooseFile(f) && PrefixUsed(f.slots, k) && ExtOk(e)
    ensures LooseFile(Appended(f, k, e))
    ensures Owned(Collect(Appended(f, k, e))) + Owned(Replaced(f.over, e.ls))
      == Owned(Collect(f)) + multiset(Range(e.ps, e.pc))
    ensures forall ls :: HasKey(Appended(f, k, e).over, ls) ==> ls == e.ls || HasKey(f.over, ls)
    ensures forall ls :: HasKey(f.over, ls) ==> HasKey(Appended(f, k, e).over, ls)
  {
    AppendedLayout(f, k, e);
    var inl := InlineExts(f.slots, 0);
    OwnedConcat(inl, f.over);
    InlineOk(f);
    if k < INLINE {
      if f.over != [] {
        PrefixUnique(f.slots, k, INLINE);
      }
      assert f.over == [] && Replaced(f.over, e.ls) == [];
      InlineAppend(f.slots, k, RunOf(e), 0);
      AppendedInline(f, k, e);
    } else {
      InsertAscends(f.over, e);
      InsertOwned(f.over, e);
      OwnedConcat(inl, OverInsert(f.over, e));
      forall ls ensures HasKey(OverInsert(f.over, e), ls) <==> ls == e.ls || HasKey(f.over, ls) {
        InsertKeys(f.over, e, ls);
      }
      AllOkConcat(inl, OverInsert(f.over, e));
      hide Owned, Range, OverInsert;
      assert Owned(inl) + Owned(OverInsert(f.over, e)) + Owned(Replaced(f.over, e.ls))
        == Owned(inl) + (Owned(OverInsert(f.over, e)) + Owned(Replaced(f.over, e.ls)));
    }
  }

  lemma {:induction false} InlineOk(f: File)
    requires AllOk(Collect(f))
    ensures AllOk(InlineExts(f.slots, 0))
  {
    var inl := InlineExts(f.slots, 0);
    forall i | 0 <= i < |inl| ensures ExtOk(inl[i]) {
      assert Collect(f)[i] == inl[i] && ExtOk(Collect(f)[i]);
    }
  }

  lemma {:induction false} AllOkConcat(a: seq<Ext>, b: seq<Ext>)
    requires AllOk(a) && AllOk(b)
    ensures AllOk(a + b)
  {
  }

  lemma {:induction false} AppendedInline(f: File, k: nat, e: Ext)
    requires k < INLINE == |f.slots| && f.over == [] && AllOk(InlineExts(f.slots, 0)) && ExtOk(e)
    requires PrefixUsed(f.slots, k)
    ensures var r := Appended(f, k, e);
      AllOk(Collect(r)) && Owned(Collect(r)) == Owned(Collect(f)) + multiset(Range(e.ps, e.pc))
  {
    var inl, at := InlineExts(f.slots, 0), InlineTotal(f.slots);
    InlineAppend(f.slots, k, RunOf(e), 0);
    var one := [e.(ls := at)];
    assert Collect(f) == inl && Collect(Appended(f, k, e)) == inl + one;
    assert AllOk(one);
    AllOkConcat(inl, one);
    OwnedConcat(inl, one);
    OwnedOne(e.(ls := at));
  }

  /** The appended groups clash with an overflow record: one starts where one of them does. */
  ghost predicate Clash(over: seq<Ext>, news: seq<Ext>) {
    exists i :: 0 <= i < |news| && HasKey(over, news[i].ls)
  }

  /** After all appends the file owns its old blocks and the new ones exactly when nothing clashed. */
  lemma {:induction false} AppendAllOwned(f: File, k: nat, news: seq<Ext>)
    requires LooseFile(f) && PrefixUsed(f.slots, k) && AllOk(news) && Sorted(news)
    ensures var r := AppendAll(f, k, news);
      && LooseFile(r)
      && (Owned(Collect(r)) == Owned(Collect(f)) + Owned(news) <==> !Clash(f.over, news))
      && Owned(Collect(r)) <= Owned(Collect(f)) + Owned(news)
      && (forall ls :: HasKey(r.over, ls) ==> HasKey(f.over, ls) || HasKey(news, ls))
      && (forall ls :: HasKey(f.over, ls) ==> HasKey(r.over, ls))
  {
    hide Collect, LayoutOk, PrefixUsed, KeysAscend, Owned, Range, HasKey;
    SlotsOf(f);
    if news == [] {
      assert Owned(news) == multiset{} by { OwnedNothing(); }
    } else {
      SlotsOf(f);
      var n := |news| - 1;
      var a, e, r0 := news[..n], news[n], AppendAll(f, k, news[..n]);
      assert news == a + [e] && ExtOk(news[n]);
      AppendAllOwned(f, k, a);
      AppendAllLayout(f, k, a);
      AppendedLoose(r0, Least(k + n, INLINE), e);
      OwnedConcat(a, [e]);
      OwnedOne(e);
      NotAmong(a, e);
      KeyConcat(a, e);
      ReplacedIff(r0.over, e.ls);
      ClashNext(f.over, a, e);
      OneMore(Owned(Collect(r0)), Owned(Collect(f)), Owned(a), multiset(Range(e.ps, e.pc)),
              Owned(Replaced(r0.over, e.ls)),
              Owned(Collect(AppendAll(f, k, news))));
    }
  }

  lemma {:induction false} OwnedNothing()
    ensures Owned([]) == multiset{}
  {
  }

  lemma {:induction false} OneMore(r0: multiset<Lba>, f: multiset<Lba>, a: multiset<Lba>, e: multiset<Lba>,
                                   lost: multiset<Lba>, r: multiset<Lba>)
    requires r + lost == r0 + e && r0 <= f + a
    ensures r <= f + (a + e) && (r == f + (a + e) <==> r0 == f + a && lost == multiset{})
  {
    if r == f + (a + e) {
      forall x ensures r0[x] == (f + a)[x] && lost[x] == 0 {
        assert (r + lost)[x] == (r0 + e)[x] && r0[x] <= (f + a)[x];
      }
      assert r0 == f + a && lost == multiset{};
    }
    if r0 == f + a && lost == multiset{} {
      assert r == r0 + e;
    }
    forall x ensures r[x] <= (f + (a + e))[x] {
      assert (r + lost)[x] == (r0 + e)[x] && r0[x] <= (f + a)[x];
    }
  }

  lemma {:induction false} ReplacedIff(over: seq<Ext>, ls: nat)
    requires KeysAscend(over) && AllOk(over)
    ensures Owned(Replaced(over, ls)) == multiset{} <==> !HasKey(over, ls)
  {
    InsertOwned(over, Ext(ls, 1, 0, 1));
    var p := Replaced(over, ls);
    if p != [] {
      assert p[0] in over && ExtOk(p[0]);
      assert p[0].ps in Range(p[0].ps, p[0].pc) by { InRange(p[0].ps, p[0].pc, p[0].ps); }
      OwnedMember(p, 0);
    }
  }

  lemma {:induction false} NotAmong(a: seq<Ext>, e: Ext)
    requires Sorted(a + [e]) && AllOk(a + [e])
    ensures Sorted(a) && AllOk(a) && !HasKey(a, e.ls)
  {
    var t := a + [e];
    forall i | 0 <= i < |a| ensures a[i] == t[i] && ExtOk(a[i]) && a[i].ls < e.ls {
      assert ExtOk(t[i]) && End(t[i]) <= t[|a|].ls;
    }
    forall i, j | 0 <= i < j < |a| ensures End(a[i]) <= a[j].ls {
      assert End(t[i]) <= t[j].ls;
    }
  }

  lemma {:induction false} KeyConcat(a: seq<Ext>, e: Ext)
    ensures forall ls :: HasKey(a + [e], ls) <==> HasKey(a, ls) || ls == e.ls
  {
    var t := a + [e];
    assert t[|a|] == e;
    forall ls ensures HasKey(t, ls) <==> HasKey(a, ls) || ls == e.ls {
      if HasKey(a, ls) {
        var i :| 0 <= i < |a| && a[i].ls == ls;
        assert t[i].ls == ls;
      }
    }
  }

  lemma {:induction false} ClashNext(over: seq<Ext>, a: seq<Ext>, e: Ext)
    ensures Clash(over, a + [e]) <==> Clash(over, a) || HasKey(over, e.ls)
  {
    hide HasKey;
    var t := a + [e];
    assert t[|a|] == e;
    if i :| 0 <= i < |a| && HasKey(over, a[i].ls) {
      assert HasKey(over, t[i].ls);
    }
    if i :| 0 <= i < |t| && HasKey(over, t[i].ls) {
      assert i < |a| ==> HasKey(over, a[i].ls);
    }
  }

  // ----- ordered files

  /** Appending behind all extents of an ordered file keeps the order. */
  lemma {:induction false} AppendAllOrdered(f: File, k: nat, news: seq<Ext>, from: nat, to: nat)
    requires LayoutOk(f) && PrefixUsed(f.slots, k) && AllOk(Collect(f)) && Sorted(Collect(f))
    requires Within(Collect(f), from)
    requires AllOk(news) && Covers(news, from, to)
    ensures var r := AppendAll(f, k, news); AllOk(Collect(r)) && Sorted(Collect(r)) && Within(Collect(r), to)
  {
    hide Collect, LayoutOk, PrefixUsed, InlineTotal, OverInsert, Appended, Sorted, Within;
    SlotsOf(f);
    if news != [] {
      var n := |news| - 1;
      var a, e := news[..n], news[n];
      assert news == a + [e] && ExtOk(news[n]);
      var y := CoversSplit(a, [e], from, to);
      assert [e][1..] == [];
      AppendAllOrdered(f, k, a, from, y);
      AppendAllLayout(f, k, a);
      AppendedFile(AppendAll(f, k, a), Least(k + n, INLINE), e, multiset{});
    }
  }

  /** In a gapless file the appended extents come back where they were put. */
  lemma {:induction false} AppendAllExact(f: File, k: nat, news: seq<Ext>, from: nat, to: nat)
    requires LayoutOk(f) && PrefixUsed(f.slots, k) && AllOk(Collect(f)) && Covers(Collect(f), 0, from)
    requires AllOk(news) && Covers(news, from, to)
    ensures Collect(AppendAll(f, k, news)) == Collect(f) + news
  {
    hide Collect, LayoutOk, PrefixUsed, InlineTotal, OverInsert;
    SlotsOf(f);
    if news != [] {
      var n := |news| - 1;
      var a, e := news[..n], news[n];
      assert news == a + [e] && ExtOk(news[n]);
      var y := CoversSplit(a, [e], from, to);
      assert [e][1..] == [];
      AppendAllExact(f, k, a, from, y);
      AppendAllLayout(f, k, a);
      CoversConcat(Collect(f), a, 0, from, y);
      AllOkConcat(Collect(f), a);
      AppendedExact(AppendAll(f, k, a), Least(k + n, INLINE), e);
    } else {
      assert Collect(f) + news == Collect(f);
    }
  }
}
