/** Machine words as their bits, least significant first, with the operations of the free-run search. */
module BitWords {

  type Word = seq<bool>

  function Or(a: Word, b: Word): Word
    requires |a| == |b|
  {
    seq(|a|, i requires 0 <= i < |a| => a[i] || b[i])
  }

  function And(a: Word, b: Word): Word
    requires |a| == |b|
  {
    seq(|a|, i requires 0 <= i < |a| => a[i] && b[i])
  }

  function Not(a: Word): Word {
    seq(|a|, i requires 0 <= i < |a| => !a[i])
  }

  /** 1 << n */
  function OneAt(n: nat, width: nat): Word {
    seq(width, i => i == n)
  }

  /** a - 1, wrapping around: the lowest one bit is cleared and the zeros below it are set. */
  function Dec(a: Word): (r: Word)
    ensures |r| == |a|
  {
    if a == [] then [] else if a[0] then [false] + a[1..] else [true] + Dec(a[1..])
  }

  /** __builtin_ctzll */
  function Lowest(a: Word): (n: nat)
    requires true in a
    ensures n < |a| && a[n] && forall i | 0 <= i < n :: !a[i]
  {
    if a[0] then 0 else Skipped(a); 1 + Lowest(a[1..])
  }

  lemma {:induction false} Skipped(a: Word)
    requires true in a && !a[0]
    ensures true in a[1..]
  {
    assert a == [a[0]] + a[1..];
  }

  lemma {:induction false} DecAt(a: Word, n: nat)
    requires n < |a| && a[n] && forall i | 0 <= i < n :: !a[i]
    ensures forall i | 0 <= i < |a| :: Dec(a)[i] == if i < n then true else if i == n then false else a[i]
  {
    if n > 0 {
      DecAt(a[1..], n - 1);
      forall i | 0 <= i < |a| ensures Dec(a)[i] == if i < n then true else if i == n then false else a[i] {
        if i > 0 {
          assert Dec(a)[i] == Dec(a[1..])[i - 1];
        }
      }
    }
  }

  /** (1 << n) - 1 has exactly the n lowest bits. */
  lemma {:induction false} LowMask(n: nat, width: nat)
    requires n < width
    ensures forall i | 0 <= i < width :: Dec(OneAt(n, width))[i] == (i < n)
  {
    DecAt(OneAt(n, width), n);
  }

  /** m & (m - 1) clears the lowest bit and no other. */
  lemma {:induction false} ClearLowest(m: Word)
    requires true in m
    ensures And(m, Dec(m)) == m[Lowest(m) := false]
  {
    DecAt(m, Lowest(m));
  }
}
