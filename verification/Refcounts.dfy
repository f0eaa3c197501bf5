/** Shared physical blocks: the allocation bitmap, the refcount records and the references they count. */
module Refcounts {
  import opened Extents
  import opened FileLayout

  /** Absence from the refcount tree means one reference. */
  function RefCount(refs: map<Lba, nat>, x: Lba): nat {
    if x in refs then refs[x] else 1
  }

  /** Every data block is allocated exactly when something references it, and its refcount is the number
      of references; metadata blocks are allocated and never referenced by files. */
  ghost predicate Balanced(used: set<Lba>, refs: map<Lba, nat>, reserved: set<Lba>, m: multiset<Lba>) {
    && (forall x | x in reserved :: x in used && m[x] == 0 && x !in refs)
    && (forall x: Lba {:trigger x in used} {:trigger m[x]} | x !in reserved :: x in used <==> m[x] > 0)
    && (forall x | x in used && x !in reserved :: RefCount(refs, x) == m[x])
    && (forall x | x in refs :: x in used && refs[x] >= 2)
  }

  /** The refcount records after obmafs3_refcount_set: a count of one is not recorded. */
  function SetCount(refs: map<Lba, nat>, x: Lba, n: nat): map<Lba, nat> {
    if n <= 1 then refs - {x} else refs[x := n]
  }

  lemma {:induction false} DropShared(used: set<Lba>, refs: map<Lba, nat>, reserved: set<Lba>, m: multiset<Lba>, x: Lba)
    requires Balanced(used, refs, reserved, m + multiset{x}) && RefCount(refs, x) > 1
    ensures Balanced(used, SetCount(refs, x, RefCount(refs, x) - 1), reserved, m)
  {
    var refs' := SetCount(refs, x, RefCount(refs, x) - 1);
    assert (m + multiset{x})[x] == m[x] + 1;
    forall y: Lba | y != x ensures (m + multiset{x})[y] == m[y] && RefCount(refs', y) == RefCount(refs, y) {
    }
  }

  lemma {:induction false} DropLast(used: set<Lba>, refs: map<Lba, nat>, reserved: set<Lba>, m: multiset<Lba>, x: Lba)
    requires Balanced(used, refs, reserved, m + multiset{x}) && RefCount(refs, x) <= 1
    ensures Balanced(used - {x}, refs, reserved, m)
  {
    assert (m + multiset{x})[x] == m[x] + 1;
    assert x !in reserved && x in used;
    forall y: Lba | y != x ensures (m + multiset{x})[y] == m[y] {
    }
  }

  lemma {:induction false} AddShared(used: set<Lba>, refs: map<Lba, nat>, reserved: set<Lba>, m: multiset<Lba>, x: Lba)
    requires Balanced(used, refs, reserved, m) && m[x] > 0
    ensures Balanced(used, SetCount(refs, x, RefCount(refs, x) + 1), reserved, m + multiset{x})
  {
    var refs' := SetCount(refs, x, RefCount(refs, x) + 1);
    assert (m + multiset{x})[x] == m[x] + 1;
    assert x !in reserved && x in used;
    forall y: Lba | y != x ensures (m + multiset{x})[y] == m[y] && RefCount(refs', y) == RefCount(refs, y) {
    }
  }

  lemma {:induction false} AddFresh(used: set<Lba>, refs: map<Lba, nat>, reserved: set<Lba>, m: multiset<Lba>,
                                    start: nat, n: nat)
    requires Balanced(used, refs, reserved, m)
    requires forall x | x in Range(start, n) :: x !in used
    ensures Balanced(used + (set x | x in Range(start, n)), refs, reserved, m + multiset(Range(start, n)))
  {
    var r := multiset(Range(start, n));
    forall x: Lba ensures (m + r)[x] == m[x] + (if x in Range(start, n) then 1 else 0) {
      RangeCount(start, n, x);
      InRange(start, n, x);
    }
    forall x: Lba | x in Range(start, n) ensures m[x] == 0 && x !in reserved && x !in refs {
    }
  }

  // ----- references of all files

  function Total(files: seq<File>): multiset<Lba> {
    if files == [] then multiset{} else Owned(Collect(files[0])) + Total(files[1..])
  }

  /** The references of every file but one. */
  function Others(files: seq<File>, i: nat): multiset<Lba>
    requires i < |files|
  {
    Total(files[..i]) + Total(files[i + 1..])
  }

  lemma {:induction false} TotalConcat(a: seq<File>, b: seq<File>)
    ensures Total(a + b) == Total(a) + Total(b)
  {
    if a == [] {
      assert a + b == b;
    } else {
      assert (a + b)[1..] == a[1..] + b;
      TotalConcat(a[1..], b);
    }
  }

  lemma {:induction false} TotalAround(files: seq<File>, i: nat)
    requires i < |files|
    ensures Total(files) == Others(files, i) + Owned(Collect(files[i]))
  {
    assert files == files[..i] + ([files[i]] + files[i + 1..]);
    TotalConcat(files[..i], [files[i]] + files[i + 1..]);
    TotalConcat([files[i]], files[i + 1..]);
    assert [files[i]][1..] == [];
    assert Total([files[i]]) == Owned(Collect(files[i]));
    hide Total, Owned;
    assert Total(files[..i]) + (Owned(Collect(files[i])) + Total(files[i + 1..]))
        == (Total(files[..i]) + Total(files[i + 1..])) + Owned(Collect(files[i]));
  }

  lemma {:induction false} OthersKept(files: seq<File>, i: nat, f: File)
    requires i < |files|
    ensures Others(files[i := f], i) == Others(files, i)
  {
    assert files[i := f][..i] == files[..i] && files[i := f][i + 1..] == files[i + 1..];
  }

  /** Another file's references are among the others. */
  lemma {:induction false} OtherOwned(files: seq<File>, i: nat, j: nat)
    requires i < |files| && j < |files| && i != j
    ensures Owned(Collect(files[j])) <= Others(files, i)
  {
    if j < i {
      TotalAround(files[..i], j);
    } else {
      assert files[i + 1..][j - i - 1] == files[j];
      TotalAround(files[i + 1..], j - i - 1);
    }
  }

  lemma {:induction false} RegroupOwned(m: multiset<Lba>, a: multiset<Lba>, r: multiset<Lba>, b: multiset<Lba>)
    requires b == a + r
    ensures (m + a) + r == m + b
  {
  }

  /** Bitmap and refcounts determine the references they count. */
  lemma {:induction false} BalancedOne(used: set<Lba>, refs: map<Lba, nat>, reserved: set<Lba>, a: multiset<Lba>,
                                       b: multiset<Lba>)
    requires Balanced(used, refs, reserved, a) && Balanced(used, refs, reserved, b)
    ensures a == b
  {
    forall x: Lba ensures a[x] == b[x] {
      assert x in reserved || x !in reserved;
    }
  }
}
