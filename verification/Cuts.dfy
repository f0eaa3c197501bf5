/** What cutting a gapless list at a block costs: nothing, or the rest of a compressed extent cut there. */
module Cuts {
  import opened Extents

  /** Where the part of the list left of block x ends: at x, or at the start of a compressed extent cut there. */
  lemma {:induction false} LeftReach(list: seq<Ext>, from: nat, to: nat, x: nat) returns (y: nat)
    requires Covers(list, from, to) && from <= x <= to
    ensures from <= y <= x && Covers(KeepLeft(list, x), from, y) && (y == x <==> Uncut(list, x))
  {
    y := from;
    if list != [] {
      var e, rest := list[0], list[1..];
      assert list == [e] + rest;
      CoversBounds(rest, End(e), to);
      if End(e) <= x {
        y := LeftReach(rest, End(e), to, x);
        assert KeepLeft(list, x)[1..] == KeepLeft(rest, x);
        UncutRest(list, x);
      } else {
        NothingLeft(rest, x);
        assert KeepLeft(list, x) == TrimLeft(e, x);
        forall i | 0 <= i < |rest| ensures rest[i].ls >= x {
        }
        UncutRest(list, x);
        if from < x && Plain(e) {
          y := x;
          assert TrimLeft(e, x)[1..] == [];
        }
      }
    }
  }

  lemma {:induction false} UncutRest(list: seq<Ext>, x: nat)
    requires list != []
    ensures Uncut(list, x) <==> (Plain(list[0]) || End(list[0]) <= x || list[0].ls >= x) && Uncut(list[1..], x)
  {
    var rest := list[1..];
    assert forall i {:trigger rest[i]} | 0 <= i < |rest| :: rest[i] == list[i + 1];
    if (Plain(list[0]) || End(list[0]) <= x || list[0].ls >= x) && Uncut(rest, x) {
      forall i | 0 <= i < |list| ensures Plain(list[i]) || End(list[i]) <= x || list[i].ls >= x {
        assert i > 0 ==> list[i] == rest[i - 1];
      }
    }
  }

  /** Cutting at block x keeps everything left of x exactly when no compressed extent is cut there. */
  lemma {:induction false} LeftCutExact(list: seq<Ext>, to: nat, x: nat)
    requires Covers(list, 0, to) && x <= to
    ensures Covers(KeepLeft(list, x), 0, x) <==> Uncut(list, x)
  {
    var y := LeftReach(list, 0, to, x);
    if Covers(KeepLeft(list, x), 0, x) {
      CoversEnd(KeepLeft(list, x), 0, x, y);
    }
  }

  /** Where the part of the list from block x on starts: at x, or at the end of a compressed extent cut there. */
  lemma {:induction false} RightReach(list: seq<Ext>, from: nat, to: nat, x: nat) returns (y: nat)
    requires Covers(list, from, to) && from <= x <= to
    ensures x <= y <= to && Covers(KeepRight(list, x), y, to) && (y == x <==> Uncut(list, x))
  {
    y := to;
    if list != [] {
      var e, rest := list[0], list[1..];
      CoversBounds(rest, End(e), to);
      UncutRest(list, x);
      if End(e) <= x {
        y := RightReach(rest, End(e), to, x);
        assert TrimRight(e, x) == [];
        assert KeepRight(list, x) == KeepRight(rest, x);
      } else {
        AllKept(rest, x);
        UncutFrom(rest, x);
        if x == e.ls || Plain(e) {
          y := x;
          assert KeepRight(list, x)[1..] == rest;
        } else {
          y := End(e);
          assert KeepRight(list, x) == rest;
        }
      }
    }
  }

  lemma {:induction false} UncutFrom(list: seq<Ext>, x: nat)
    requires forall i | 0 <= i < |list| :: x <= list[i].ls
    ensures Uncut(list, x)
  {
  }

  /** Cutting at block x keeps everything from x on exactly when no compressed extent is cut there. */
  lemma {:induction false} RightCutExact(list: seq<Ext>, to: nat, x: nat)
    requires Covers(list, 0, to) && x <= to
    ensures Covers(KeepRight(list, x), x, to) <==> Uncut(list, x)
  {
    var y := RightReach(list, 0, to, x);
  }

  /** Some compressed extent starts before block x and holds block b behind it. */
  ghost predicate CutAcross(list: seq<Ext>, x: nat, b: nat) {
    exists i :: 0 <= i < |list| && Across(list[i], x, b)
  }

  predicate Across(e: Ext, x: nat, b: nat) {
    !Plain(e) && e.ls < x && In(e, b)
  }

  /** Some extent that the cut at x keeps, whole or trimmed, holds block b. */
  ghost predicate KeptFor(list: seq<Ext>, x: nat, b: nat) {
    exists i :: 0 <= i < |list| && In(list[i], b) && !Across(list[i], x, b)
  }

  lemma {:induction false} HasTrimmed(e: Ext, x: nat, b: nat)
    requires x <= b
    ensures Has(TrimRight(e, x), b) <==> In(e, b) && !Across(e, x, b)
  {
    var t := TrimRight(e, x);
    if In(e, b) && !Across(e, x, b) {
      assert In(t[0], b);
    }
  }

  lemma {:induction false} HasKept(list: seq<Ext>, x: nat, b: nat)
    requires x <= b
    ensures Has(KeepRight(list, x), b) <==> KeptFor(list, x, b)
  {
    if list != [] {
      hide TrimRight, Has, Across;
      var rest := list[1..];
      HasTrimmed(list[0], x, b);
      HasKept(rest, x, b);
      HasConcat(TrimRight(list[0], x), KeepRight(rest, x), b);
      if KeptFor(rest, x, b) {
        var i :| 0 <= i < |rest| && In(rest[i], b) && !Across(rest[i], x, b);
        assert In(list[i + 1], b) && !Across(list[i + 1], x, b);
      }
      if i :| 0 <= i < |list| && In(list[i], b) && !Across(list[i], x, b) {
        assert i > 0 ==> list[i] == rest[i - 1];
      }
    } else {
      assert KeepRight(list, x) == [];
    }
  }

  /** The blocks from x on that a cut at x loses are those of a compressed extent cut there. */
  lemma {:induction false} LostRight(list: seq<Ext>, to: nat, x: nat, b: nat)
    requires Covers(list, 0, to) && x <= b < to
    ensures !Has(KeepRight(list, x), b) <==> CutAcross(list, x, b)
  {
    HasKept(list, x, b);
    HasCovered(list, 0, to, b);
    CoversBounds(list, 0, to);
    var k :| 0 <= k < |list| && In(list[k], b);
    forall i | 0 <= i < |list| && In(list[i], b) ensures i == k {
      OnlyOne(list, i, k, b);
    }
    assert CutAcross(list, x, b) <==> Across(list[k], x, b);
    assert KeptFor(list, x, b) <==> !Across(list[k], x, b);
  }

  lemma {:induction false} OnlyOne(list: seq<Ext>, i: nat, k: nat, b: nat)
    requires Sorted(list) && i < |list| && k < |list| && In(list[i], b) && In(list[k], b)
    ensures i == k
  {
  }
}
