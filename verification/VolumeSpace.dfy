/** Finding free blocks: the volume's search is the bitmap's, and both miss runs that lie across the hint. */
module VolumeSpace {
  import opened Blocks
  import opened Extents
  import opened Refcounts
  import opened Volumes
  import Bitmap

  /** The bitmap shows which blocks are taken. */
  ghost predicate Shown(bits: seq<bool>, used: set<Lba>, total: nat) {
    total <= |bits| && forall x | 0 <= x < total :: bits[x] <==> x in used
  }

  lemma {:induction false} SameRun(bits: seq<bool>, used: set<Lba>, total: nat, s: nat, n: nat)
    requires Shown(bits, used, total) && s + n <= total
    ensures Bitmap.FreeRun(bits, s, n) <==> FreeRun(used, s, n)
  {
  }

  lemma {:induction false} SameFit(bits: seq<bool>, used: set<Lba>, total: nat, lo: nat, hi: nat, n: nat)
    requires Shown(bits, used, total) && hi <= total
    ensures Bitmap.NoFit(bits, lo, hi, n) <==> NoFit(used, lo, hi, n)
    ensures forall s: nat :: Bitmap.FirstFit(bits, lo, hi, n, s) <==> FirstFit(used, lo, hi, n, s)
  {
    forall s: nat | s + n <= hi ensures Bitmap.FreeRun(bits, s, n) <==> FreeRun(used, s, n) {
      SameRun(bits, used, total, s, n);
    }
    hide Bitmap.FreeRun, FreeRun;
  }

  /** The word-wise search in the bitmap and the search of the file layer give the same answer. */
  lemma {:induction false} SearchAgrees(bits: seq<bool>, used: set<Lba>, nextFree: nat, total: nat, n: nat)
    requires Shown(bits, used, total)
    ensures Bitmap.NotFound(bits, nextFree, total, n) <==> NotFound(used, nextFree, total, n)
    ensures forall s: nat :: Bitmap.FoundAt(bits, nextFree, total, n, s) <==> FoundAt(used, nextFree, total, n, s)
  {
    hide Bitmap.NoFit, NoFit, Bitmap.FirstFit, FirstFit;
    SameFit(bits, used, total, Hint(nextFree, total), total, n);
    SameFit(bits, used, total, 0, Hint(nextFree, total), n);
  }

  lemma {:induction false} FoundOnce(used: set<Lba>, nextFree: nat, total: nat, n: nat, s: nat, t: nat)
    requires FoundAt(used, nextFree, total, n, s)
    ensures !NotFound(used, nextFree, total, n) && (FoundAt(used, nextFree, total, n, t) ==> s == t)
  {
  }

  /** obmafs3_alloc_blocks twice over: on the bitmap, word by word, and on the set of taken blocks. Status, blocks
      and hint are the same, and the bitmap goes on showing the set. */
  method AllocateBoth(b: Bitmap.AllocationBitmap, v: Volume, n: nat, padding: seq<bool>, ghost m: multiset<Lba>)
    returns (st: Status, start: Lba)
    requires b.Valid() && b.loaded && |b.bits| + |padding| == 64 * ((b.total + 63) / 64)
    requires v.Mounted() && Balanced(v.used, v.refs, v.reserved, m)
    requires b.total == |v.device| && b.nextFree == v.nextFree && Shown(b.bits, v.used, b.total)
    modifies b`bits, b`nextFree, v`used, v`nextFree
    ensures b.Valid() && b.nextFree == v.nextFree && Shown(b.bits, v.used, b.total)
    ensures st == NoSpace <==> NotFound(old(v.used), old(v.nextFree), b.total, Need(n))
    ensures st == Ok ==> FoundAt(old(v.used), old(v.nextFree), b.total, Need(n), start)
  {
    hide Balanced, Range, NotFound, FoundAt, Bitmap.NotFound, Bitmap.FoundAt;
    SearchAgrees(b.bits, v.used, v.nextFree, b.total, Need(n));
    ghost var used, nextFree := v.used, v.nextFree;
    var bst, bstart := b.AllocBlocks(n, padding);
    st, start := v.AllocBlocks(n, m);
    if st == Ok {
      FoundOnce(used, nextFree, b.total, Need(n), start, bstart);
      assert bst == Bitmap.Ok && bstart == start;
      forall x: Lba ensures x in Range(start, n) <==> start <= x < start + n {
        InRange(start, n, x);
      }
    } else if bst == Bitmap.Ok {
      FoundOnce(used, nextFree, b.total, Need(n), bstart, bstart);
    }
  }

  // ----- runs across the hint

  /** A search fails although n blocks in a row are free exactly when every such run lies across the hint. */
  lemma {:induction false} MissedIff(used: set<Lba>, nextFree: nat, total: nat, n: nat)
    requires n > 0
    ensures NotFound(used, nextFree, total, n)
      <==> forall s: nat | s + n <= total && FreeRun(used, s, n) :: s < Hint(nextFree, total) < s + n
  {
    hide FreeRun;
  }

  /** 100 blocks of which the last 16 are free, with the hint at 92: a file at blocks 84 to 91 was deleted. A whole
      group of free blocks exists and is not found. */
  lemma {:induction false} GroupAcrossHint(used: set<Lba>)
    requires forall x: Lba :: x in used <==> x < 84
    ensures FreeRun(used, 84, GROUP) && NotFound(used, 92, 100, GROUP)
  {
    forall s: nat | s + GROUP <= 92 ensures !FreeRun(used, s, GROUP) {
      assert s in used;
    }
  }

  method MissGroup(v: Volume, ghost m: multiset<Lba>) returns (st: Status, start: Lba)
    requires v.Mounted() && Balanced(v.used, v.refs, v.reserved, m)
    requires |v.device| == 100 && v.nextFree == 92 && forall x: Lba :: x in v.used <==> x < 84
    modifies v`used, v`nextFree
    ensures st == NoSpace && v.used == old(v.used) && FreeRun(v.used, 84, GROUP) && v.Exhausted()
  {
    GroupAcrossHint(v.used);
    st, start := v.AllocBlocks(GROUP, m);
  }
}
