/** Arithmetic of AES columns: multiplication by x in GF(2^8) and the two column mixes. */
module AesColumns {

  function Xor(a: bv8, b: bv8): bv8 {
    a ^ b
  }

  /** Multiplication by x modulo x^8 + x^4 + x^3 + x + 1. */
  function Xtime(x: bv8): bv8 {
    (x << 1) ^ (((x >> 7) & 1) * 0x1B)
  }

  function Shifted(x: bv8): bv8 {
    x << 1
  }

  function Reduction(x: bv8): bv8 {
    ((x >> 7) & 1) * 0x1B
  }

  lemma {:induction false} ShiftedLinear(a: bv8, b: bv8)
    ensures Shifted(Xor(a, b)) == Xor(Shifted(a), Shifted(b))
  {
  }

  lemma {:induction false} ReductionCases(a: bv8)
    ensures Reduction(a) == if a & 0x80 != 0 then 0x1B else 0
  {
  }

  lemma {:induction false} TopBit(a: bv8, b: bv8)
    ensures (Xor(a, b) & 0x80 != 0) <==> ((a & 0x80 != 0) != (b & 0x80 != 0))
  {
  }

  lemma {:induction false} ReductionLinear(a: bv8, b: bv8)
    ensures Reduction(Xor(a, b)) == Xor(Reduction(a), Reduction(b))
  {
    hide Reduction;
    ReductionCases(a);
    ReductionCases(b);
    ReductionCases(Xor(a, b));
    TopBit(a, b);
  }

  lemma {:induction false} XtimeParts(a: bv8)
    ensures Xtime(a) == Xor(Shifted(a), Reduction(a))
  {
  }

  lemma {:induction false} Linear(a: bv8, b: bv8)
    ensures Xtime(Xor(a, b)) == Xor(Xtime(a), Xtime(b))
  {
    hide Xor, Xtime, Shifted, Reduction;
    XtimeParts(a);
    XtimeParts(b);
    XtimeParts(Xor(a, b));
    ShiftedLinear(a, b);
    ReductionLinear(a, b);
    Interchange(Shifted(a), Shifted(b), Reduction(a), Reduction(b));
  }

  datatype Column = Column(a: bv8, b: bv8, d: bv8, e: bv8)

  function Sum4(a: bv8, b: bv8, d: bv8, e: bv8): bv8 {
    Xor(Xor(Xor(a, b), d), e)
  }

  /** The first byte of a mixed column; the others follow by rotation. */
  function Mixed(a: bv8, b: bv8, d: bv8, e: bv8): bv8 {
    Xor(Xor(a, Sum4(a, b, d, e)), Xtime(Xor(a, b)))
  }

  function MixColumn(c: Column): Column {
    Column(Mixed(c.a, c.b, c.d, c.e), Mixed(c.b, c.d, c.e, c.a), Mixed(c.d, c.e, c.a, c.b), Mixed(c.e, c.a, c.b, c.d))
  }

  function Quad(x: bv8): bv8 {
    Xtime(Xtime(x))
  }

  /** The pre-multiplication that turns the column mix into its inverse. */
  function Premultiply(c: Column): Column {
    var u, v := Quad(Xor(c.a, c.d)), Quad(Xor(c.b, c.e));
    Column(Xor(c.a, u), Xor(c.b, v), Xor(c.d, u), Xor(c.e, v))
  }

  function InvMixColumn(c: Column): Column {
    MixColumn(Premultiply(c))
  }

  // ----- exclusive-or identities

  lemma {:induction false} Assoc(a: bv8, b: bv8, c: bv8)
    ensures Xor(Xor(a, b), c) == Xor(a, Xor(b, c))
  {
  }

  lemma {:induction false} Comm(a: bv8, b: bv8)
    ensures Xor(a, b) == Xor(b, a)
  {
  }

  lemma {:induction false} Self(a: bv8, b: bv8)
    ensures Xor(a, Xor(a, b)) == b && Xor(Xor(b, a), a) == b
  {
  }

  lemma {:induction false} Cancel(a: bv8, b: bv8, d: bv8)
    ensures Xor(Xor(a, b), Xor(b, d)) == Xor(a, d)
  {
    hide Xor;
    Assoc(Xor(a, b), b, d);
    Self(b, a);
  }

  lemma {:induction false} Interchange(w: bv8, x: bv8, y: bv8, z: bv8)
    ensures Xor(Xor(w, x), Xor(y, z)) == Xor(Xor(w, y), Xor(x, z))
  {
    hide Xor;
    Assoc(w, x, Xor(y, z));
    Assoc(x, y, z);
    Comm(x, y);
    Assoc(y, x, z);
    Assoc(w, y, Xor(x, z));
  }

  /** Three of the four bytes of a column. */
  function Others(b: bv8, d: bv8, e: bv8): bv8 {
    Xor(Xor(b, d), e)
  }

  lemma {:induction false} DropFirst(a: bv8, b: bv8, d: bv8, e: bv8)
    ensures Xor(a, Sum4(a, b, d, e)) == Others(b, d, e)
  {
    hide Xor;
    Assoc(a, Xor(Xor(a, b), d), e);
    Assoc(a, Xor(a, b), d);
    Self(a, b);
  }

  lemma {:induction false} Unmixed(a: bv8, b: bv8, d: bv8, e: bv8)
    ensures Mixed(a, b, d, e) == Xor(Others(b, d, e), Xtime(Xor(a, b)))
  {
    hide Xor, Xtime, Others;
    DropFirst(a, b, d, e);
  }

  lemma {:induction false} OthersSums(a: bv8, b: bv8, d: bv8, e: bv8)
    ensures Xor(Others(b, d, e), Others(d, e, a)) == Xor(a, b)
    ensures Xor(Others(b, d, e), Others(e, a, b)) == Xor(a, d)
  {
    hide Xor;
    Assoc(b, d, e);
    Cancel(b, Xor(d, e), a);
    Comm(a, b);
    Comm(b, d);
    Assoc(d, b, e);
    Comm(b, e);
    Comm(e, a);
    Assoc(a, e, b);
    Comm(a, Xor(e, b));
    Cancel(d, Xor(e, b), a);
    Comm(a, d);
  }

  // ----- sums of mixed bytes

  lemma {:induction false} SumXtime(a: bv8, b: bv8, d: bv8)
    ensures Xor(Xtime(Xor(a, b)), Xtime(Xor(b, d))) == Xtime(Xor(a, d))
  {
    hide Xtime, Xor;
    Linear(Xor(a, b), Xor(b, d));
    Cancel(a, b, d);
  }

  lemma {:induction false} Diagonal(a: bv8, b: bv8, d: bv8, e: bv8)
    ensures Xor(Mixed(a, b, d, e), Mixed(d, e, a, b)) == Xor(Xor(a, d), Xtime(Xor(Xor(a, b), Xor(d, e))))
  {
    hide Xtime, Xor, Mixed, Others;
    Unmixed(a, b, d, e);
    Unmixed(d, e, a, b);
    OthersSums(a, b, d, e);
    Interchange(Others(b, d, e), Xtime(Xor(a, b)), Others(e, a, b), Xtime(Xor(d, e)));
    Linear(Xor(a, b), Xor(d, e));
  }

  lemma {:induction false} Neighbours(a: bv8, b: bv8, d: bv8, e: bv8)
    ensures Xor(Mixed(a, b, d, e), Mixed(b, d, e, a)) == Xor(Xor(a, b), Xtime(Xor(a, d)))
  {
    hide Xtime, Xor, Mixed, Others;
    Unmixed(a, b, d, e);
    Unmixed(b, d, e, a);
    OthersSums(a, b, d, e);
    Interchange(Others(b, d, e), Xtime(Xor(a, b)), Others(d, e, a), Xtime(Xor(b, d)));
    SumXtime(a, b, d);
  }

  lemma {:induction false} Three(a: bv8, b: bv8, d: bv8, e: bv8)
    ensures Others(Mixed(b, d, e, a), Mixed(d, e, a, b), Mixed(e, a, b, d)) == Xor(a, Xtime(Xor(a, b)))
  {
    hide Xtime, Xor, Mixed;
    Neighbours(b, d, e, a);
    Unmixed(e, a, b, d);
    Interchange(Xor(b, d), Xtime(Xor(b, e)), Others(a, b, d), Xtime(Xor(e, a)));
    SumXtime(b, e, a);
    Comm(a, b);
    Assoc(a, b, d);
    Comm(a, Xor(b, d));
    Self(Xor(b, d), a);
  }

  lemma {:induction false} QuadLinear(a: bv8, b: bv8)
    ensures Quad(Xor(a, b)) == Xor(Quad(a), Quad(b))
  {
    hide Xor, Xtime;
    Linear(a, b);
    Linear(Xtime(a), Xtime(b));
  }

  // ----- the inverse

  /** Sum of a column, in the groupings that occur. */
  lemma {:induction false} Groupings(a: bv8, b: bv8, d: bv8, e: bv8)
    ensures Xor(Xor(b, d), Xor(e, a)) == Xor(Xor(a, b), Xor(d, e)) == Xor(Xor(a, d), Xor(b, e))
  {
    hide Xor;
    Interchange(a, b, d, e);
    Comm(e, a);
    Comm(Xor(b, d), Xor(a, e));
    Interchange(a, e, b, d);
    Comm(e, d);
  }

  /** The two pre-multipliers of a mixed column, and their sum. */
  lemma {:induction false} Multipliers(a: bv8, b: bv8, d: bv8, e: bv8)
    ensures var s := Xor(Xor(a, b), Xor(d, e));
      && Quad(Xor(Mixed(a, b, d, e), Mixed(d, e, a, b))) == Xor(Quad(Xor(a, d)), Quad(Xtime(s)))
      && Quad(Xor(Mixed(b, d, e, a), Mixed(e, a, b, d))) == Xor(Quad(Xor(b, e)), Quad(Xtime(s)))
      && Xor(Quad(Xor(a, d)), Quad(Xor(b, e))) == Quad(s)
  {
    hide Xor, Xtime, Quad, Mixed;
    var s := Xor(Xor(a, b), Xor(d, e));
    Diagonal(a, b, d, e);
    Diagonal(b, d, e, a);
    Groupings(a, b, d, e);
    QuadLinear(Xor(a, d), Xtime(s));
    QuadLinear(Xor(b, e), Xtime(s));
    QuadLinear(Xor(a, d), Xor(b, e));
  }

  /** Mixing with multipliers added, in terms of the sums of the unmodified bytes. */
  lemma {:induction false} MixedWith(p: bv8, q: bv8, r: bv8, t: bv8, u: bv8, v: bv8)
    ensures Mixed(Xor(p, u), Xor(q, v), Xor(r, u), Xor(t, v))
      == Xor(Xor(Others(q, r, t), u), Xor(Xtime(Xor(p, q)), Xtime(Xor(u, v))))
  {
    hide Xor, Xtime, Mixed;
    Unmixed(Xor(p, u), Xor(q, v), Xor(r, u), Xor(t, v));
    OthersWith(q, r, t, u, v);
    Interchange(p, u, q, v);
    Linear(Xor(p, q), Xor(u, v));
  }

  lemma {:induction false} OthersWith(q: bv8, r: bv8, t: bv8, u: bv8, v: bv8)
    ensures Others(Xor(q, v), Xor(r, u), Xor(t, v)) == Xor(Others(q, r, t), u)
  {
    hide Xor;
    Interchange(q, v, r, u);
    Interchange(Xor(q, r), Xor(v, u), t, v);
    Comm(v, u);
    Self(v, u);
  }

  /** One byte of the inverse mix of a mixed column is the original byte. */
  lemma {:induction false} ByteRestored(a: bv8, b: bv8, d: bv8, e: bv8)
    ensures var p, q, r, t := Mixed(a, b, d, e), Mixed(b, d, e, a), Mixed(d, e, a, b), Mixed(e, a, b, d);
      var u, v := Quad(Xor(p, r)), Quad(Xor(q, t));
      Mixed(Xor(p, u), Xor(q, v), Xor(r, u), Xor(t, v)) == a
  {
    var p, q, r, t := Mixed(a, b, d, e), Mixed(b, d, e, a), Mixed(d, e, a, b), Mixed(e, a, b, d);
    var u, v := Quad(Xor(p, r)), Quad(Xor(q, t));
    hide Xor, Xtime, Mixed, Others;
    var s := Xor(Xor(a, b), Xor(d, e));
    var m, k, o := Xtime(Xor(a, b)), Quad(Xor(a, d)), Quad(Xtime(s));
    Multipliers(a, b, d, e);
    MixedWith(p, q, r, t, u, v);
    Three(a, b, d, e);
    Neighbours(a, b, d, e);
    Linear(Xor(a, b), Xtime(Xor(a, d)));
    SumMultipliers(k, Quad(Xor(b, e)), o);
    assert Xtime(Quad(s)) == o;
    Restored(a, m, k, o);
  }

  lemma {:induction false} SumMultipliers(k: bv8, l: bv8, o: bv8)
    ensures Xor(Xor(k, o), Xor(l, o)) == Xor(k, l)
  {
    hide Xor;
    Comm(l, o);
    Cancel(k, o, l);
  }

  lemma {:induction false} Restored(a: bv8, m: bv8, k: bv8, o: bv8)
    ensures Xor(Xor(Xor(a, m), Xor(k, o)), Xor(Xor(m, k), o)) == a
  {
    hide Xor;
    Assoc(a, m, Xor(k, o));
    Assoc(m, k, o);
    Self(Xor(m, Xor(k, o)), a);
  }

  /** The inverse mix undoes the mix. */
  lemma {:induction false} InvMixOfMix(c: Column)
    ensures InvMixColumn(MixColumn(c)) == c
  {
    hide Xor, Xtime, Quad, Mixed;
    var m := MixColumn(c);
    ByteRestored(c.a, c.b, c.d, c.e);
    ByteRestored(c.b, c.d, c.e, c.a);
    ByteRestored(c.d, c.e, c.a, c.b);
    ByteRestored(c.e, c.a, c.b, c.d);
    Comm(m.a, m.d);
    Comm(m.b, m.e);
  }

  /** Pre-multiplication and mix commute. */
  lemma {:induction false} ByteCommutes(a: bv8, b: bv8, d: bv8, e: bv8)
    ensures var u, v := Quad(Xor(a, d)), Quad(Xor(b, e));
      Mixed(Xor(a, u), Xor(b, v), Xor(d, u), Xor(e, v))
        == Xor(Mixed(a, b, d, e), Quad(Xor(Mixed(a, b, d, e), Mixed(d, e, a, b))))
  {
    hide Xor, Xtime, Mixed, Others;
    var u, v := Quad(Xor(a, d)), Quad(Xor(b, e));
    Multipliers(a, b, d, e);
    MixedWith(a, b, d, e, u, v);
    Unmixed(a, b, d, e);
    Interchange(Others(b, d, e), u, Xtime(Xor(a, b)), Xtime(Xor(u, v)));
  }

  lemma {:induction false} MixOfInvMix(c: Column)
    ensures MixColumn(InvMixColumn(c)) == c
  {
    var m := MixColumn(c);
    assert MixColumn(Premultiply(c)) == Premultiply(m) by {
      hide Xor, Xtime, Quad, Mixed;
      ByteCommutes(c.a, c.b, c.d, c.e);
      ByteCommutes(c.b, c.d, c.e, c.a);
      ByteCommutes(c.d, c.e, c.a, c.b);
      ByteCommutes(c.e, c.a, c.b, c.d);
      Comm(m.a, m.d);
      Comm(m.b, m.e);
      Comm(c.a, c.d);
      Comm(c.b, c.e);
    }
    hide MixColumn, Premultiply;
    InvMixOfMix(c);
  }

  /** The mix is the matrix product of section 5.1.3 of FIPS 197: rows of 02 03 01 01. */
  lemma {:induction false} MixedIsProduct(a: bv8, b: bv8, d: bv8, e: bv8)
    ensures Mixed(a, b, d, e) == Xor(Xor(Xtime(a), Xor(Xtime(b), b)), Xor(d, e))
  {
    hide Xor, Xtime, Mixed;
    Unmixed(a, b, d, e);
    Linear(a, b);
    Assoc(b, d, e);
    Comm(Xor(b, Xor(d, e)), Xor(Xtime(a), Xtime(b)));
    Assoc(Xor(Xtime(a), Xtime(b)), b, Xor(d, e));
    Assoc(Xtime(a), Xtime(b), b);
  }
}
