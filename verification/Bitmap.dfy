/** The allocation bitmap: one bit per block, eight to a byte, least significant bit first. */
module Bitmap {
  import opened Blocks
  import opened BitWords

  // ----- free runs, bit by bit

  /** Blocks [s, s + n) are free. */
  ghost predicate FreeRun(bits: seq<bool>, s: nat, n: nat) {
    s + n <= |bits| && forall i | s <= i < s + n :: !bits[i]
  }

  /** s is the lowest start of n free blocks that lie wholly in [lo, hi). */
  ghost predicate FirstFit(bits: seq<bool>, lo: nat, hi: nat, n: nat, s: nat) {
    && lo <= s && s + n <= hi && FreeRun(bits, s, n)
    && forall s' | lo <= s' < s :: !FreeRun(bits, s', n)
  }

  ghost predicate NoFit(bits: seq<bool>, lo: nat, hi: nat, n: nat) {
    forall s | lo <= s && s + n <= hi :: !FreeRun(bits, s, n)
  }

  /** Free blocks right before x, back to lo. */
  function Tail(bits: seq<bool>, lo: nat, x: nat): nat
    requires x <= |bits|
  {
    if x <= lo || bits[x - 1] then 0 else 1 + Tail(bits, lo, x - 1)
  }

  lemma {:induction false} TailFree(bits: seq<bool>, lo: nat, x: nat)
    requires lo <= x <= |bits|
    ensures var t := Tail(bits, lo, x); lo + t <= x && forall i | x - t <= i < x :: !bits[i]
  {
    if x > lo && !bits[x - 1] {
      TailFree(bits, lo, x - 1);
    }
  }

  lemma {:induction false} RunInTail(bits: seq<bool>, lo: nat, s: nat, n: nat)
    requires lo <= s && FreeRun(bits, s, n)
    ensures Tail(bits, lo, s + n) >= n
  {
    if n > 0 {
      RunInTail(bits, lo, s, n - 1);
    }
  }

  /** No run of n blocks ends in (lo, x]. */
  ghost predicate NoRun(bits: seq<bool>, lo: nat, x: nat, n: nat) {
    x <= |bits| && forall y {:trigger Tail(bits, lo, y)} | lo <= y <= x :: Tail(bits, lo, y) < n
  }

  lemma {:induction false} NoRunNoFit(bits: seq<bool>, lo: nat, hi: nat, n: nat)
    requires NoRun(bits, lo, hi, n)
    ensures NoFit(bits, lo, hi, n)
  {
    forall s | lo <= s && s + n <= hi ensures !FreeRun(bits, s, n) {
      if FreeRun(bits, s, n) {
        RunInTail(bits, lo, s, n);
      }
    }
  }

  /** The first run that reaches n blocks is the first fit. */
  lemma {:induction false} FirstRun(bits: seq<bool>, lo: nat, hi: nat, n: nat, x: nat)
    requires lo <= x < hi <= |bits| && n > 0 && NoRun(bits, lo, x, n) && Tail(bits, lo, x + 1) >= n
    ensures lo + n <= x + 1 && FirstFit(bits, lo, hi, n, x + 1 - n)
  {
    TailFree(bits, lo, x + 1);
    var s := x + 1 - n;
    forall s' | lo <= s' < s ensures !FreeRun(bits, s', n) {
      if FreeRun(bits, s', n) {
        RunInTail(bits, lo, s', n);
      }
    }
  }

  // ----- the state of the scan

  /** The run being counted ends at x, or no free block lies right before x. */
  ghost predicate Counting(bits: seq<bool>, lo: nat, x: nat, start: nat, len: nat)
    requires x <= |bits|
  {
    && (len > 0 ==> start + len <= x)
    && Tail(bits, lo, x) == if len > 0 && start + len == x then len else 0
  }

  /** Allocated blocks are skipped. */
  lemma {:induction false} Skip(bits: seq<bool>, lo: nat, x: nat, y: nat, start: nat, len: nat, n: nat)
    requires lo <= x <= y <= |bits| && n > 0 && Counting(bits, lo, x, start, len) && NoRun(bits, lo, x, n)
    requires forall i | x <= i < y :: bits[i]
    ensures Counting(bits, lo, y, start, len) && NoRun(bits, lo, y, n)
    ensures y > x ==> Counting(bits, lo, y, start, 0)
  {
    forall z | lo <= z <= y ensures Tail(bits, lo, z) < n {
      if z > x {
        assert bits[z - 1];
      }
    }
    if y > x {
      assert bits[y - 1];
    }
  }

  /** A word of the bitmap as stored: bits past the end of the map are whatever memory holds. */
  function WordAt(mem: seq<bool>, w: nat): Word
    requires 64 * (w + 1) <= |mem|
  {
    mem[64 * w..64 * (w + 1)]
  }

  /** The free blocks of word w still to be looked at: from x on, before hi. */
  ghost predicate Mask(bits: seq<bool>, m: Word, w: nat, x: nat, hi: nat) {
    |m| == 64 && forall k {:trigger m[k]} | 0 <= k < 64 ::
      m[k] <==> x <= 64 * w + k < hi && 64 * w + k < |bits| && !bits[64 * w + k]
  }

  /** The word with the bits below the position and past the end masked, as the scan builds it. */
  method MaskedWord(mem: seq<bool>, bit: nat, hi: nat) returns (word: Word)
    requires bit < hi && 64 * (bit / 64 + 1) <= |mem|
    ensures |word| == 64
    ensures forall k {:trigger word[k]} | 0 <= k < 64 ::
      word[k] <==> !(bit <= 64 * (bit / 64) + k < hi) || mem[64 * (bit / 64) + k]
  {
    var w, at := bit / 64, bit % 64;
    assert bit == 64 * w + at;
    word := WordAt(mem, w);
    if at != 0 {
      LowMask(at, 64);
      word := Or(word, Dec(OneAt(at, 64)));
    }
    var wordEnd := (w + 1) * 64;
    if wordEnd > hi {
      var excess := wordEnd - hi;
      LowMask(64 - excess, 64);
      word := Or(word, Not(Dec(OneAt(64 - excess, 64))));
    }
  }

  /** One pass: the first fit in [lo, hi), if any, whatever lies in memory behind the bitmap. */
  method Scan(mem: seq<bool>, ghost bits: seq<bool>, lo: nat, hi: nat, count: nat) returns (r: Option<nat>)
    requires lo < hi <= |bits| <= |mem| && bits == mem[..|bits|] && 64 * ((hi - 1) / 64 + 1) <= |mem|
    ensures var n := if count == 0 then 1 else count;
      if r.Some? then FirstFit(bits, lo, hi, n, r.value) else NoFit(bits, lo, hi, n)
  {
    hide FirstFit, NoFit, Tail, Mask, NoRun;
    ghost var n := if count == 0 then 1 else count;
    var start, len := 0, 0;
    var bit := lo;
    StartScan(bits, lo, n);
    while bit < hi
      invariant lo <= bit && Counting(bits, lo, Min(bit, hi), start, len) && NoRun(bits, lo, Min(bit, hi), n)
      invariant bit < hi ==> 64 * (bit / 64 + 1) <= |mem|
      decreases hi - bit
    {
      var w := bit / 64;
      assert 64 * w <= bit < 64 * (w + 1);
      var word := MaskedWord(mem, bit, hi);
      ghost var stop := Min(64 * (w + 1), hi);
      if word == seq(64, _ => true) {
        AllMasked(mem, bits, word, bit, hi, w);
        Skip(bits, lo, bit, stop, start, len, n);
        len := 0;
      } else {
        MaskOf(mem, bits, word, bit, hi, w);
        r, start, len := ScanWord(Not(word), bits, lo, hi, w, bit, start, len, count);
        if r.Some? {
          return;
        }
      }
      bit := (w + 1) * 64;
    }
    NoRunNoFit(bits, lo, hi, n);
    r := None;
  }

  function Min(a: nat, b: nat): nat {
    if a < b then a else b
  }

  lemma {:induction false} StartScan(bits: seq<bool>, lo: nat, n: nat)
    requires lo <= |bits| && n > 0
    ensures Counting(bits, lo, lo, 0, 0) && NoRun(bits, lo, lo, n)
  {
  }

  lemma {:induction false} AllMasked(mem: seq<bool>, bits: seq<bool>, word: Word, bit: nat, hi: nat, w: nat)
    requires hi <= |bits| <= |mem| && bits == mem[..|bits|] && w == bit / 64 && 64 * w <= bit < 64 * (w + 1) <= |mem|
    requires |word| == 64 && forall k {:trigger word[k]} | 0 <= k < 64 ::
      word[k] <==> !(bit <= 64 * w + k < hi) || mem[64 * w + k]
    requires word == seq(64, _ => true)
    ensures forall i | bit <= i < Min(64 * (w + 1), hi) :: bits[i]
  {
    forall i | bit <= i < Min(64 * (w + 1), hi) ensures bits[i] {
      assert word[i - 64 * w];
    }
  }

  lemma {:induction false} MaskOf(mem: seq<bool>, bits: seq<bool>, word: Word, bit: nat, hi: nat, w: nat)
    requires hi <= |bits| <= |mem| && bits == mem[..|bits|] && 64 * (w + 1) <= |mem|
    requires |word| == 64 && forall k {:trigger word[k]} | 0 <= k < 64 ::
      word[k] <==> !(bit <= 64 * w + k < hi) || mem[64 * w + k]
    ensures Mask(bits, Not(word), w, bit, hi)
  {
  }

  /** Looks at the free blocks of one word, lowest first. */
  method ScanWord(mask: Word, ghost bits: seq<bool>, ghost lo: nat, hi: nat, w: nat, ghost bit: nat, start0: nat,
                  len0: nat, count: nat)
    returns (r: Option<nat>, start: nat, len: nat)
    requires lo <= bit < hi <= |bits| && 64 * w <= bit < 64 * (w + 1) && Mask(bits, mask, w, bit, hi)
    requires Counting(bits, lo, bit, start0, len0) && NoRun(bits, lo, bit, if count == 0 then 1 else count)
    ensures var n, stop := if count == 0 then 1 else count, Min(64 * (w + 1), hi);
      if r.Some? then FirstFit(bits, lo, hi, n, r.value)
      else Counting(bits, lo, stop, start, len) && NoRun(bits, lo, stop, n)
  {
    hide FirstFit, Tail, NoRun, Counting, Lowest, Dec;
    ghost var n, stop := if count == 0 then 1 else count, Min(64 * (w + 1), hi);
    var free := mask;
    ghost var x := bit;
    start, len := start0, len0;
    while true in free
      invariant bit <= x <= stop && Mask(bits, free, w, x, hi)
      invariant Counting(bits, lo, x, start, len) && NoRun(bits, lo, x, n)
      decreases stop - x
    {
      var pos := Lowest(free);
      var abs := w * 64 + pos;
      NextFree(bits, free, w, x, hi);
      if abs >= hi {
        break;
      }
      Skip(bits, lo, x, abs, start, len, n);
      CountOn(bits, lo, abs, start, len);
      if len == 0 || abs != start + len {
        start, len := abs, 1;
      } else {
        len := len + 1;
      }
      if len >= count {
        Reached(bits, lo, hi, n, abs, start, len);
        return Some(start), start, len;
      }
      LessThan(bits, lo, abs, start, len, n);
      DropLowest(bits, free, w, x, hi);
      free := And(free, Dec(free));
      x := abs + 1;
    }
    NoneFree(bits, free, w, x, hi);
    Skip(bits, lo, x, stop, start, len, n);
    r := None;
  }

  lemma {:induction false} NextFree(bits: seq<bool>, m: Word, w: nat, x: nat, hi: nat)
    requires Mask(bits, m, w, x, hi) && true in m && 64 * w <= x && hi <= |bits|
    ensures var abs := w * 64 + Lowest(m);
      x <= abs < hi && abs < 64 * (w + 1) && !bits[abs] && forall i | x <= i < abs :: bits[i]
  {
    var p := Lowest(m);
    assert m[p];
    forall i | x <= i < w * 64 + p ensures bits[i] {
      assert !m[i - 64 * w];
    }
  }

  lemma {:induction false} NoneFree(bits: seq<bool>, m: Word, w: nat, x: nat, hi: nat)
    requires Mask(bits, m, w, x, hi) && true !in m && 64 * w <= x && hi <= |bits|
    ensures forall i | x <= i < Min(64 * (w + 1), hi) :: bits[i]
  {
    forall i | x <= i < Min(64 * (w + 1), hi) ensures bits[i] {
      assert !m[i - 64 * w];
    }
  }

  lemma {:induction false} DropLowest(bits: seq<bool>, m: Word, w: nat, x: nat, hi: nat)
    requires Mask(bits, m, w, x, hi) && true in m
    ensures Mask(bits, And(m, Dec(m)), w, w * 64 + Lowest(m) + 1, hi)
  {
    ClearLowest(m);
    var p := Lowest(m);
    assert forall i | 0 <= i < p :: !m[i];
    hide Dec, Lowest;
    assert m[p];
  }

  /** A free block at x lengthens the run that ends there, or starts a new one. */
  lemma {:induction false} CountOn(bits: seq<bool>, lo: nat, x: nat, start: nat, len: nat)
    requires lo <= x < |bits| && !bits[x] && Counting(bits, lo, x, start, len)
    ensures var (s, l) := if len == 0 || x != start + len then (x, 1) else (start, len + 1);
      Counting(bits, lo, x + 1, s, l) && Tail(bits, lo, x + 1) == l && s + l == x + 1
  {
  }

  lemma {:induction false} Reached(bits: seq<bool>, lo: nat, hi: nat, n: nat, x: nat, start: nat, len: nat)
    requires lo <= x < hi <= |bits| && n > 0 && NoRun(bits, lo, x, n) && Tail(bits, lo, x + 1) == len >= n
    requires start + len == x + 1
    ensures FirstFit(bits, lo, hi, n, start)
  {
    FirstRun(bits, lo, hi, n, x);
    TailFree(bits, lo, x + 1);
    assert Tail(bits, lo, x) < n;
  }

  lemma {:induction false} LessThan(bits: seq<bool>, lo: nat, x: nat, start: nat, len: nat, n: nat)
    requires lo <= x < |bits| && NoRun(bits, lo, x, n) && Tail(bits, lo, x + 1) == len < n
    ensures NoRun(bits, lo, x + 1, n)
  {
  }

  /** A search for no blocks behaves as one for a single block. */
  function Need(count: nat): nat {
    if count == 0 then 1 else count
  }

  /** Where a search starts. */
  function Hint(nextFree: nat, total: nat): nat {
    if nextFree >= total then 0 else nextFree
  }

  /** The search fails: neither the part from the hint on nor the part before it holds such a run. */
  ghost predicate NotFound(bits: seq<bool>, nextFree: nat, total: nat, n: nat) {
    NoFit(bits, Hint(nextFree, total), total, n) && NoFit(bits, 0, Hint(nextFree, total), n)
  }

  /** The search finds s: the first fit from the hint on, else the first fit before it. */
  ghost predicate FoundAt(bits: seq<bool>, nextFree: nat, total: nat, n: nat, s: nat) {
    var hint := Hint(nextFree, total);
    FirstFit(bits, hint, total, n, s) || (NoFit(bits, hint, total, n) && FirstFit(bits, 0, hint, n, s))
  }

  datatype Status = Ok | NoSpace | Inval

  class AllocationBitmap {
    /** ctx->bitmap, if it has been read. */
    var loaded: bool
    var bits: seq<bool>
    var nextFree: nat
    const total: nat

    /** Whole bytes that hold a bit for every block. */
    ghost predicate Valid()
      reads this
    {
      |bits| % 8 == 0 && total <= |bits| < total + 8
    }

    /** obmafs3_bitmap_set: blocks past the map are ignored. */
    method Set(lba: nat, count: nat)
      requires Valid()
      modifies this`bits
      ensures Valid() && |bits| == |old(bits)|
      ensures forall x | 0 <= x < |bits| :: bits[x] == (old(bits)[x] || (loaded && lba <= x < lba + count))
    {
      if !loaded {
        return;
      }
      var i := 0;
      while i < count
        invariant 0 <= i <= count && |bits| == |old(bits)|
        invariant forall x | 0 <= x < |bits| :: bits[x] == (old(bits)[x] || lba <= x < lba + i)
      {
        if (lba + i) / 8 < |bits| / 8 {
          bits := bits[lba + i := true];
        }
        i := i + 1;
      }
    }

    /** obmafs3_bitmap_clear */
    method Clear(lba: nat, count: nat)
      requires Valid()
      modifies this`bits
      ensures Valid() && |bits| == |old(bits)|
      ensures forall x | 0 <= x < |bits| :: bits[x] == (old(bits)[x] && !(loaded && lba <= x < lba + count))
    {
      if !loaded {
        return;
      }
      var i := 0;
      while i < count
        invariant 0 <= i <= count && |bits| == |old(bits)|
        invariant forall x | 0 <= x < |bits| :: bits[x] == (old(bits)[x] && !(lba <= x < lba + i))
      {
        if (lba + i) / 8 < |bits| / 8 {
          bits := bits[lba + i := false];
        }
        i := i + 1;
      }
    }

    /** obmafs3_bitmap_is_set: false for an unloaded map or a block past it. */
    method IsSet(lba: nat) returns (r: bool)
      requires Valid()
      ensures r == (loaded && lba < |bits| && bits[lba])
    {
      if !loaded || lba / 8 >= |bits| / 8 {
        return false;
      }
      return bits[lba];
    }

    /** obmafs3_bitmap_find_free: segment-wise first fit, first from the hint to the end of the volume, then
        from its start to the hint. `padding` is the memory behind the map, up to a whole word. */
    method FindFree(count: nat, padding: seq<bool>) returns (st: Status, start: nat)
      requires Valid() && |bits| + |padding| == 64 * ((total + 63) / 64)
      ensures st == Inval <==> !loaded
      ensures st == Ok ==> FoundAt(bits, nextFree, total, Need(count), start)
      ensures st == NoSpace ==> NotFound(bits, nextFree, total, Need(count))
    {
      start := 0;
      if !loaded {
        return Inval, 0;
      }
      hide FirstFit;
      if total == 0 {
        return NoSpace, 0;
      }
      var hint := if nextFree >= total then 0 else nextFree;
      var mem := bits + padding;
      WordsFit(total, total);
      var r := Scan(mem, bits, hint, total, count);
      if r.None? && hint > 0 {
        WordsFit(hint, total);
        r := Scan(mem, bits, 0, hint, count);
      }
      if r.Some? {
        return Ok, r.value;
      }
      return NoSpace, 0;
    }

    /** obmafs3_alloc_blocks: takes the first fit and moves the hint behind it, never back. */
    method AllocBlocks(count: nat, padding: seq<bool>) returns (st: Status, start: nat)
      requires Valid() && |bits| + |padding| == 64 * ((total + 63) / 64)
      modifies this`bits, this`nextFree
      ensures Valid() && |bits| == |old(bits)| && (st == Inval <==> !loaded)
      ensures st != Ok ==> bits == old(bits) && nextFree == old(nextFree)
      ensures st == NoSpace ==> NotFound(bits, nextFree, total, Need(count))
      ensures st == Ok ==> FoundAt(old(bits), old(nextFree), total, Need(count), start)
      ensures st == Ok ==> start + count <= total && FreeRun(old(bits), start, count)
      ensures st == Ok ==> forall x | 0 <= x < |bits| :: bits[x] == (old(bits)[x] || start <= x < start + count)
      ensures st == Ok ==> nextFree == if start + count > old(nextFree) then start + count else old(nextFree)
    {
      st, start := FindFree(count, padding);
      if st != Ok {
        return;
      }
      Set(start, count);
      if start + count > nextFree {
        nextFree := start + count;
      }
    }
  }

  lemma {:induction false} WordsFit(hi: nat, total: nat)
    requires 0 < hi <= total
    ensures 64 * ((hi - 1) / 64 + 1) <= 64 * ((total + 63) / 64)
  {
  }
}
