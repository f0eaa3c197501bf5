/** The overflow tree as one inode sees it: an ordered list of extents under insertion, lookup and clearing. */
module OverflowLayer {
  import opened OverflowNodes
  import opened OverflowInsert
  import opened OverflowScan
  import Extents
  import FileLayout
  import FileRead
  import Blocks

  /** A record as an extent of its inode. */
  function AsExt(r: Extent): Extents.Ext {
    Extents.Ext(r.key.off, r.logical, r.start, r.blocks)
  }

  function AsExts(s: seq<Extent>): seq<Extents.Ext> {
    seq(|s|, i requires 0 <= i < |s| => AsExt(s[i]))
  }

  /** Insertion into a sorted record sequence, over an equal key. */
  function SortedInsert(s: seq<Extent>, e: Extent): seq<Extent> {
    if s == [] || Lt(e.key, s[0].key) then [e] + s
    else if e.key == s[0].key then [e] + s[1..]
    else [s[0]] + SortedInsert(s[1..], e)
  }

  lemma {:induction false} SortedRest(s: seq<Extent>)
    requires SortedRecs(s) && s != []
    ensures SortedRecs(s[1..]) && forall r | r in s[1..] :: Lt(s[0].key, r.key)
  {
    var rest := s[1..];
    assert forall i {:trigger rest[i]} | 0 <= i < |rest| :: rest[i] == s[i + 1];
  }

  lemma {:induction false} InsertMembers(s: seq<Extent>, e: Extent, r: Extent)
    requires SortedRecs(s)
    ensures r in SortedInsert(s, e) <==> r == e || (r in s && r.key != e.key)
  {
    if s != [] {
      SortedRest(s);
      assert s == [s[0]] + s[1..];
      if !Lt(e.key, s[0].key) && e.key != s[0].key {
        InsertMembers(s[1..], e, r);
      }
    }
  }

  lemma {:induction false} InsertSorted(s: seq<Extent>, e: Extent)
    requires SortedRecs(s)
    ensures SortedRecs(SortedInsert(s, e))
  {
    if s != [] && !Lt(e.key, s[0].key) {
      SortedRest(s);
      InsertSorted(s[1..], e);
      var rest := if e.key == s[0].key then s[1..] else SortedInsert(s[1..], e);
      forall r | r in rest ensures Lt(s[0].key, r.key) {
        InsertMembers(s[1..], e, r);
      }
      var t := SortedInsert(s, e);
      assert t[1..] == rest;
      forall i, j | 0 <= i < j < |t| ensures Lt(t[i].key, t[j].key) {
        assert t[j] == rest[j - 1];
        assert i > 0 ==> t[i] == rest[i - 1];
      }
    }
  }

  /** A sorted sequence is determined by its records. */
  lemma {:induction false} SameSorted(s: seq<Extent>, t: seq<Extent>)
    requires SortedRecs(s) && SortedRecs(t) && forall r :: r in s <==> r in t
    ensures s == t
  {
    if s != [] {
      assert s[0] in s;
    }
    if t != [] {
      assert t[0] in t;
    }
    if s != [] {
      SortedRest(s);
      SortedRest(t);
      assert s == [s[0]] + s[1..] && t == [t[0]] + t[1..];
      assert s[0] in t && t[0] in s;
      forall r ensures r in s[1..] <==> r in t[1..] {
        assert r in s <==> r in t;
      }
      SameSorted(s[1..], t[1..]);
    }
  }

  /** A map update is insertion into the sorted sequence. */
  lemma {:induction false} UpdateIsInsert(s: seq<Extent>, t: seq<Extent>, e: Extent)
    requires SortedRecs(s) && SortedRecs(t) && AsMap(t) == AsMap(s)[e.key := e]
    ensures t == SortedInsert(s, e)
  {
    InsertSorted(s, e);
    forall r ensures r in t <==> r in SortedInsert(s, e) {
      InsertMembers(s, e, r);
      assert r in t <==> r.key in AsMap(t) && AsMap(t)[r.key] == r by { MapMembers(t, r); }
      assert r in s <==> r.key in AsMap(s) && AsMap(s)[r.key] == r by { MapMembers(s, r); }
    }
    SameSorted(t, SortedInsert(s, e));
  }

  lemma {:induction false} MapMembers(s: seq<Extent>, r: Extent)
    requires SortedRecs(s)
    ensures r in s <==> r.key in AsMap(s) && AsMap(s)[r.key] == r
  {
  }

  lemma {:induction false} OfFront(s: seq<Extent>, ino: nat)
    requires s != []
    ensures OfInode(s, ino) == (if s[0].key.ino == ino then [s[0]] else []) + OfInode(s[1..], ino)
  {
    assert s == [s[0]] + s[1..];
    OfInodeConcat([s[0]], s[1..], ino);
    assert [s[0]][..0] == [];
  }

  lemma {:induction false} OfLarger(s: seq<Extent>, ino: nat)
    requires forall r | r in s :: r.key.ino > ino
    ensures OfInode(s, ino) == []
  {
    OfNone(s, ino);
  }

  lemma {:induction false} ExtsConcat(a: seq<Extent>, b: seq<Extent>)
    ensures AsExts(a + b) == AsExts(a) + AsExts(b)
  {
  }

  /** An inode's list after an insertion: a sorted insert over an equal offset, or no change. */
  function InsertedFor(list: seq<Extents.Ext>, e: Extent, ino: nat): seq<Extents.Ext> {
    if ino == e.key.ino then FileLayout.OverInsert(list, AsExt(e)) else list
  }

  /** Inserting a record changes its inode's list by a sorted insert over an equal offset, and no other
      inode's list. */
  lemma {:induction false} InsertForInode(s: seq<Extent>, e: Extent, ino: nat)
    requires SortedRecs(s)
    ensures AsExts(OfInode(SortedInsert(s, e), ino)) == InsertedFor(AsExts(OfInode(s, ino)), e, ino)
  {
    if s == [] {
      OfFront([e], ino);
    } else if Lt(e.key, s[0].key) {
      InsertFirst(s, e, ino);
    } else if e.key == s[0].key {
      InsertOver(s, e, ino);
    } else {
      SortedRest(s);
      InsertForInode(s[1..], e, ino);
      InsertLater(s, e, ino);
    }
  }

  /** An inode's list, by its first record. */
  lemma {:induction false} ExtsFront(s: seq<Extent>, ino: nat)
    requires s != []
    ensures var rest := AsExts(OfInode(s[1..], ino));
      AsExts(OfInode(s, ino)) == if s[0].key.ino == ino then [AsExt(s[0])] + rest else rest
  {
    OfFront(s, ino);
    if s[0].key.ino == ino {
      ExtsConcat([s[0]], OfInode(s[1..], ino));
      assert AsExts([s[0]]) == [AsExt(s[0])];
    } else {
      assert [] + OfInode(s[1..], ino) == OfInode(s[1..], ino);
    }
  }

  lemma {:induction false} InsertFirst(s: seq<Extent>, e: Extent, ino: nat)
    requires SortedRecs(s) && s != [] && Lt(e.key, s[0].key)
    ensures AsExts(OfInode(SortedInsert(s, e), ino)) == InsertedFor(AsExts(OfInode(s, ino)), e, ino)
  {
    ExtsFront([e] + s, ino);
    assert ([e] + s)[1..] == s;
    SortedRest(s);
    ExtsFront(s, ino);
    if ino == e.key.ino && s[0].key.ino != ino {
      OfLarger(s[1..], ino);
    }
  }

  lemma {:induction false} InsertOver(s: seq<Extent>, e: Extent, ino: nat)
    requires SortedRecs(s) && s != [] && e.key == s[0].key
    ensures AsExts(OfInode(SortedInsert(s, e), ino)) == InsertedFor(AsExts(OfInode(s, ino)), e, ino)
  {
    var t := [e] + s[1..];
    assert SortedInsert(s, e) == t && t[1..] == s[1..];
    ExtsFront(t, ino);
    ExtsFront(s, ino);
  }

  lemma {:induction false} InsertLater(s: seq<Extent>, e: Extent, ino: nat)
    requires SortedRecs(s) && s != [] && Lt(s[0].key, e.key)
    requires AsExts(OfInode(SortedInsert(s[1..], e), ino)) == InsertedFor(AsExts(OfInode(s[1..], ino)), e, ino)
    ensures AsExts(OfInode(SortedInsert(s, e), ino)) == InsertedFor(AsExts(OfInode(s, ino)), e, ino)
  {
    var t := [s[0]] + SortedInsert(s[1..], e);
    assert SortedInsert(s, e) == t && t[1..] == SortedInsert(s[1..], e);
    ExtsFront(t, ino);
    ExtsFront(s, ino);
    hide OfInode, AsExts, SortedInsert, SortedRecs;
    var rest := AsExts(OfInode(s[1..], ino));
    if s[0].key.ino == ino {
      assert ([AsExt(s[0])] + rest)[1..] == rest;
    }
  }

  // ----- lookups

  /** The first record of the tree to cover the block is the first extent of its inode to hold it. */
  lemma {:induction false} CoverFound(s: seq<Extent>, n: nat, r: Extent, ino: nat, block: nat)
    requires FirstToCover(s, n, r, ino, block)
    ensures FileRead.Finds(AsExts(OfInode(s, ino)), block, Blocks.Some(AsExt(r)))
  {
    var x, y := AsExts(OfInode(s[..n], ino)), AsExts(OfInode(s[n..], ino));
    assert s == s[..n] + s[n..];
    OfInodeConcat(s[..n], s[n..], ino);
    ExtsConcat(OfInode(s[..n], ino), OfInode(s[n..], ino));
    NoneFound(s[..n], ino, block);
    ExtsFront(s[n..], ino);
    assert FileRead.FirstWith(y, block, 0);
    FileRead.FindsMore(x, y, block, Blocks.Some(AsExt(r)));
  }

  lemma {:induction false} NoneFound(s: seq<Extent>, ino: nat, block: nat)
    requires NoneCovers(s, ino, block)
    ensures FileRead.Finds(AsExts(OfInode(s, ino)), block, Blocks.None)
  {
    if s != [] {
      var a, r := s[..|s| - 1], s[|s| - 1];
      assert forall i | 0 <= i < |a| :: a[i] == s[i];
      NoneFound(a, ino, block);
      assert !CoversBlock(r, ino, block);
      if r.key.ino == ino {
        ExtsConcat(OfInode(a, ino), [r]);
        assert AsExts([r]) == [AsExt(r)];
      } else {
        assert OfInode(a, ino) + [] == OfInode(a, ino);
      }
    }
  }

  /** What overflow_insert does to the tree's map is what each inode's extent list calls for. */
  lemma {:induction false} TreeInsertForInode(s: seq<Extent>, t: seq<Extent>, e: Extent, ino: nat)
    requires SortedRecs(s) && SortedRecs(t) && AsMap(t) == AsMap(s)[e.key := e]
    ensures AsExts(OfInode(t, ino)) == InsertedFor(AsExts(OfInode(s, ino)), e, ino)
  {
    UpdateIsInsert(s, t, e);
    InsertForInode(s, e, ino);
  }

  /** Clearing an inode empties its list and leaves every other list alone. */
  lemma {:induction false} ClearForInode(s: seq<Extent>, cleared: nat, ino: nat)
    ensures OfInode(Without(s, cleared), ino) == if ino == cleared then [] else OfInode(s, ino)
  {
    if s != [] {
      var a, r := s[..|s| - 1], s[|s| - 1];
      ClearForInode(a, cleared, ino);
      OfInodeConcat(Without(a, cleared), if r.key.ino == cleared then [] else [r], ino);
      assert [r][..0] == [];
    }
  }
}
