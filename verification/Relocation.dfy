/** Moving a whole B+Tree to a contiguous range by copying its nodes and rewriting their pointers. */
module Relocation {
  import opened Blocks
  import opened RelocMap

  // ----- nodes

  type Sum = Bytes

  /** A node image: a tree node with its links, child pointers, remaining bytes and checksum, or a node of
      the free chain, which has no node magic. */
  datatype Node =
    | Tree(left: Lba, right: Lba, level: nat, kids: seq<Lba>, body: Bytes, checksum: Option<Sum>)
    | Chained(next: Lba, body: Bytes)

  /** The checksum of a tree node, computed with its checksum field cleared. */
  type Checksum = Node -> Sum

  ghost predicate SumOk(n: Node, sum: Checksum) {
    n.Tree? ==> n.checksum == Some(sum(n.(checksum := None)))
  }

  /** A pointer, rewritten; 0 is the null pointer. */
  function Mapped(x: Lba, es: seq<Entry>): Lba {
    if x == 0 then 0 else NewOr(First(es, x), x)
  }

  function MappedAll(xs: seq<Lba>, es: seq<Entry>): seq<Lba> {
    seq(|xs|, i requires 0 <= i < |xs| => Mapped(xs[i], es))
  }

  /** The node with its pointers rewritten; the checksum is recomputed if a pointer changed. */
  function Renamed(n: Node, es: seq<Entry>, indexed: bool, sum: Checksum): Node {
    match n
    case Chained(next, body) => Chained(Mapped(next, es), body)
    case Tree(left, right, level, kids, body, checksum) =>
      var kids' := if level > 0 && indexed then MappedAll(kids, es) else kids;
      var n' := Tree(Mapped(left, es), Mapped(right, es), level, kids', body, checksum);
      if n' != n then n'.(checksum := Some(sum(n'.(checksum := None)))) else n
  }

  ghost predicate SamePointers(n: Node, n': Node) {
    n.Tree? && n'.Tree? && n.left == n'.left && n.right == n'.right && n.kids == n'.kids
  }

  /** A tree node keeps its level and contents; its checksum is touched only when a pointer changed, and is
      valid then, whatever it was before. */
  ghost predicate SumFollows(n: Node, n': Node, sum: Checksum) {
    n.Tree? ==>
      && n'.Tree? && n'.level == n.level && n'.body == n.body
      && if SamePointers(n, n') then n'.checksum == n.checksum else SumOk(n', sum)
  }

  lemma {:induction false} RenamedSum(n: Node, es: seq<Entry>, indexed: bool, sum: Checksum)
    ensures SumFollows(n, Renamed(n, es, indexed, sum), sum)
  {
    if n.Tree? {
      var n' := Renamed(n, es, indexed, sum);
      assert n'.(checksum := None).(checksum := None) == n'.(checksum := None);
    }
  }

  // ----- the new places

  function Place(dst: Lba, bpn: nat, i: nat): Lba {
    dst + i * bpn
  }

  lemma {:induction false} PlaceNext(dst: Lba, bpn: nat, i: nat)
    ensures Place(dst, bpn, 0) == dst && Place(dst, bpn, i + 1) == Place(dst, bpn, i) + bpn
  {
  }

  lemma {:induction false} PlaceOrder(dst: Lba, bpn: nat, i: nat, j: nat)
    requires i < j
    ensures Place(dst, bpn, i) + bpn <= Place(dst, bpn, j)
  {
    PlaceNext(dst, bpn, j - 1);
    if i < j - 1 {
      hide Place;
      PlaceOrder(dst, bpn, i, j - 1);
    }
  }

  lemma {:induction false} PlaceAfter(dst: Lba, bpn: nat, n: nat)
    ensures dst <= Place(dst, bpn, n)
  {
  }

  function Moves(lbas: seq<Lba>, dst: Lba, bpn: nat): seq<Entry> {
    seq(|lbas|, i requires 0 <= i < |lbas| => Entry(lbas[i], Place(dst, bpn, i), 0))
  }

  ghost predicate Distinct(lbas: seq<Lba>) {
    forall i, j | 0 <= i < j < |lbas| :: lbas[i] != lbas[j]
  }

  /** Node i goes to place i, anything else keeps its address. */
  lemma {:induction false} MovedTo(lbas: seq<Lba>, dst: Lba, bpn: nat, i: nat)
    requires Distinct(lbas) && i < |lbas| && lbas[i] != 0
    ensures Mapped(lbas[i], Moves(lbas, dst, bpn)) == Place(dst, bpn, i)
  {
    hide Place;
    FirstAt(Moves(lbas, dst, bpn), lbas[i], i);
  }

  lemma {:induction false} NotMoved(lbas: seq<Lba>, dst: Lba, bpn: nat, x: Lba)
    requires x !in lbas
    ensures Mapped(x, Moves(lbas, dst, bpn)) == x
  {
    hide Place;
    FirstNone(Moves(lbas, dst, bpn), x);
  }

  // ----- nodes on the device

  /** A device block: a part of a node image, or anything else. */
  datatype Chunk = Part(node: Node, k: nat) | Other(bytes: Bytes)

  ghost predicate StoredAt(dev: seq<Chunk>, lba: Lba, bpn: nat, n: Node) {
    lba + bpn <= |dev| && forall k | 0 <= k < bpn :: dev[lba + k] == Part(n, k)
  }

  ghost predicate AllStored(dev: seq<Chunk>, lbas: seq<Lba>, bpn: nat, nodes: seq<Node>) {
    |lbas| == |nodes| && forall i | 0 <= i < |lbas| :: StoredAt(dev, lbas[i], bpn, nodes[i])
  }

  ghost predicate StoredAtPlace(dev: seq<Chunk>, dst: Lba, bpn: nat, nodes: seq<Node>, i: nat)
    requires i < |nodes|
  {
    StoredAt(dev, Place(dst, bpn, i), bpn, nodes[i])
  }

  function RenamedAll(nodes: seq<Node>, es: seq<Entry>, indexed: bool, sum: Checksum): seq<Node> {
    seq(|nodes|, i requires 0 <= i < |nodes| => Renamed(nodes[i], es, indexed, sum))
  }

  // ----- blocks of nodes

  predicate InNode(x: Lba, lba: Lba, bpn: nat) {
    lba <= x < lba + bpn
  }

  predicate InNew(x: Lba, dst: Lba, bpn: nat, n: nat) {
    dst <= x < Place(dst, bpn, n)
  }

  /** One of the first k old nodes holds block x. */
  ghost predicate InOld(x: Lba, lbas: seq<Lba>, bpn: nat, k: nat) {
    exists i :: 0 <= i < k <= |lbas| && InNode(x, lbas[i], bpn)
  }

  /** One of the first k old nodes that start outside the new range holds block x. */
  ghost predicate Cleared(x: Lba, lbas: seq<Lba>, bpn: nat, k: nat, dst: Lba) {
    exists i :: 0 <= i < k <= |lbas| && !InNew(lbas[i], dst, bpn, |lbas|) && InNode(x, lbas[i], bpn)
  }

  /** An old node that starts outside the new range reaches into it, or the other way round. */
  ghost predicate Straddles(lba: Lba, dst: Lba, bpn: nat, n: nat) {
    exists x :: InNode(x, lba, bpn) && InNew(x, dst, bpn, n) != InNew(lba, dst, bpn, n)
  }

  /** Each old node's blocks are allocated and no other old node's. */
  ghost predicate NodesApart(used: set<Lba>, lbas: seq<Lba>, bpn: nat) {
    && (forall i, x | 0 <= i < |lbas| && InNode(x, lbas[i], bpn) :: x in used)
    && (forall i, j, x
          | 0 <= i < |lbas| && 0 <= j < |lbas| && InNode(x, lbas[i], bpn) && InNode(x, lbas[j], bpn) :: i == j)
  }

  /** The bitmap afterwards, as the code leaves it. */
  ghost predicate UsedAfter(x: Lba, used: set<Lba>, lbas: seq<Lba>, bpn: nat, dst: Lba) {
    (x in used || InNew(x, dst, bpn, |lbas|)) && !Cleared(x, lbas, bpn, |lbas|, dst)
  }

  /** The bitmap that moving the tree calls for: without the old nodes, with the new range. */
  ghost predicate UsedWanted(x: Lba, used: set<Lba>, lbas: seq<Lba>, bpn: nat, dst: Lba) {
    (x in used && !InOld(x, lbas, bpn, |lbas|)) || InNew(x, dst, bpn, |lbas|)
  }

  /** The bitmap comes out right exactly when no old node straddles an edge of the new range. */
  lemma {:induction false} BitmapExact(used: set<Lba>, lbas: seq<Lba>, bpn: nat, dst: Lba)
    requires NodesApart(used, lbas, bpn)
    ensures (forall x :: UsedAfter(x, used, lbas, bpn, dst) <==> UsedWanted(x, used, lbas, bpn, dst))
      <==> (forall i | 0 <= i < |lbas| :: !Straddles(lbas[i], dst, bpn, |lbas|))
  {
    hide Place;
    if forall i | 0 <= i < |lbas| :: !Straddles(lbas[i], dst, bpn, |lbas|) {
      forall x ensures UsedAfter(x, used, lbas, bpn, dst) <==> UsedWanted(x, used, lbas, bpn, dst) {
        NoStraddle(used, lbas, bpn, dst, x);
      }
    }
    if i :| 0 <= i < |lbas| && Straddles(lbas[i], dst, bpn, |lbas|) {
      var x :| InNode(x, lbas[i], bpn) && InNew(x, dst, bpn, |lbas|) != InNew(lbas[i], dst, bpn, |lbas|);
      StraddleBreaks(used, lbas, bpn, dst, i, x);
    }
  }

  lemma {:induction false} NoStraddle(used: set<Lba>, lbas: seq<Lba>, bpn: nat, dst: Lba, x: Lba)
    requires NodesApart(used, lbas, bpn) && forall i | 0 <= i < |lbas| :: !Straddles(lbas[i], dst, bpn, |lbas|)
    ensures UsedAfter(x, used, lbas, bpn, dst) <==> UsedWanted(x, used, lbas, bpn, dst)
  {
    hide Place;
    if i :| 0 <= i < |lbas| && InNode(x, lbas[i], bpn) {
      assert !Straddles(lbas[i], dst, bpn, |lbas|);
      assert InNew(x, dst, bpn, |lbas|) == InNew(lbas[i], dst, bpn, |lbas|);
    }
  }

  lemma {:induction false} StraddleBreaks(used: set<Lba>, lbas: seq<Lba>, bpn: nat, dst: Lba, i: nat, x: Lba)
    requires NodesApart(used, lbas, bpn) && i < |lbas| && InNode(x, lbas[i], bpn)
    requires InNew(x, dst, bpn, |lbas|) != InNew(lbas[i], dst, bpn, |lbas|)
    ensures UsedAfter(x, used, lbas, bpn, dst) != UsedWanted(x, used, lbas, bpn, dst)
  {
    hide Place;
    assert x in used;
    assert InOld(x, lbas, bpn, |lbas|);
    if InNew(lbas[i], dst, bpn, |lbas|) {
      assert !Cleared(x, lbas, bpn, |lbas|, dst);
    } else {
      assert Cleared(x, lbas, bpn, |lbas|, dst);
    }
  }

  /** A node of two blocks at 9, moved to 10: block 10, the first of the new node, comes out as free. */
  lemma {:induction false} StraddleLosesBlock(used: set<Lba>)
    requires 9 in used && 10 in used
    ensures NodesApart(used, [9], 2) && Straddles(9, 10, 2, 1)
    ensures UsedWanted(10, used, [9], 2, 10) && !UsedAfter(10, used, [9], 2, 10)
  {
    assert InNode(10, 9, 2) && InNew(10, 10, 2, 1) && !InNew(9, 10, 2, 1);
    assert [9][0] == 9 && Cleared(10, [9], 2, 1, 10);
  }

  // ----- isomorphism

  /** Nodes by address. */
  type Store = map<Lba, Node>

  /** Every pointer is null or leads to a node of the store. */
  ghost predicate Closed(s: Store, indexed: bool) {
    forall x | x in s :: PointersIn(s[x], s, indexed)
  }

  ghost predicate PointersIn(n: Node, s: Store, indexed: bool) {
    match n
    case Chained(next, body) => next == 0 || next in s
    case Tree(left, right, level, kids, body, checksum) =>
      && (left == 0 || left in s) && (right == 0 || right in s)
      && (level > 0 && indexed ==> forall i | 0 <= i < |kids| :: kids[i] == 0 || kids[i] in s)
  }

  ghost function Stored(lbas: seq<Lba>, nodes: seq<Node>): Store
    requires |lbas| == |nodes|
  {
    if lbas == [] then map[] else Stored(lbas[1..], nodes[1..])[lbas[0] := nodes[0]]
  }

  lemma {:induction false} StoredNodes(lbas: seq<Lba>, nodes: seq<Node>)
    requires |lbas| == |nodes| && Distinct(lbas)
    ensures forall x :: x in Stored(lbas, nodes) <==> x in lbas
    ensures forall i | 0 <= i < |lbas| :: Stored(lbas, nodes)[lbas[i]] == nodes[i]
  {
    if lbas != [] {
      assert forall i | 0 <= i < |lbas[1..]| :: lbas[1..][i] == lbas[i + 1];
      StoredNodes(lbas[1..], nodes[1..]);
      forall i | 0 <= i < |lbas| ensures Stored(lbas, nodes)[lbas[i]] == nodes[i] {
        if i > 0 {
          assert lbas[1..][i - 1] == lbas[i] && nodes[1..][i - 1] == nodes[i];
        }
      }
      forall x ensures x in Stored(lbas, nodes) <==> x in lbas {
        assert lbas == [lbas[0]] + lbas[1..];
      }
    }
  }

  /** `s'` is `s` with every address and every pointer mapped. */
  ghost predicate Image(s: Store, s': Store, es: seq<Entry>, indexed: bool, sum: Checksum) {
    forall x | x in s ::
      && x != 0 && Mapped(x, es) != 0 && Mapped(x, es) in s'
      && s'[Mapped(x, es)] == Renamed(s[x], es, indexed, sum)
  }

  /** A tree to a given depth, without its addresses. */
  datatype Picture = Nothing | Unknown | Cut | Leaf(body: Bytes) | Index(level: nat, body: Bytes, kids: seq<Picture>)

  ghost function Draw(s: Store, lba: Lba, indexed: bool, depth: nat): Picture
    decreases depth
  {
    if lba == 0 then Nothing
    else if lba !in s then Unknown
    else if depth == 0 then Cut
    else match s[lba]
      case Chained(next, body) => Leaf(body)
      case Tree(left, right, level, kids, body, checksum) =>
        if level > 0 && indexed
        then Index(level, body, seq(|kids|, i requires 0 <= i < |kids| => Draw(s, kids[i], indexed, depth - 1)))
        else Leaf(body)
  }

  /** Below any node, to any depth, the moved tree is the same tree. */
  lemma {:induction false} SameTree(s: Store, s': Store, es: seq<Entry>, indexed: bool, sum: Checksum, lba: Lba,
                                    depth: nat)
    requires Closed(s, indexed) && Image(s, s', es, indexed, sum) && (lba == 0 || lba in s)
    ensures Draw(s', Mapped(lba, es), indexed, depth) == Draw(s, lba, indexed, depth)
    decreases depth
  {
    hide Image, Closed, Renamed, Mapped, Draw, PointersIn;
    if lba != 0 && depth > 0 && s[lba].Tree? && s[lba].level > 0 && indexed {
      MappedNode(s, s', es, sum, lba);
      var n, n' := s[lba], s'[Mapped(lba, es)];
      forall i | 0 <= i < |n.kids|
        ensures Draw(s', n'.kids[i], indexed, depth - 1) == Draw(s, n.kids[i], indexed, depth - 1)
      {
        SameTree(s, s', es, indexed, sum, n.kids[i], depth - 1);
      }
      DrawIndex(s, lba, depth);
      DrawIndex(s', Mapped(lba, es), depth);
    } else {
      SameLeaf(s, s', es, indexed, sum, lba, depth);
    }
  }

  lemma {:induction false} MappedNode(s: Store, s': Store, es: seq<Entry>, sum: Checksum, lba: Lba)
    requires Closed(s, true) && Image(s, s', es, true, sum) && lba in s && s[lba].Tree? && s[lba].level > 0
    ensures Mapped(lba, es) != 0 && Mapped(lba, es) in s'
    ensures var n, n' := s[lba], s'[Mapped(lba, es)];
      && n'.Tree? && n'.level == n.level && n'.body == n.body && n'.kids == MappedAll(n.kids, es)
      && forall i | 0 <= i < |n.kids| :: n.kids[i] == 0 || n.kids[i] in s
  {
    assert PointersIn(s[lba], s, true);
    RenamedFields(s[lba], es, sum);
    hide Renamed;
  }

  lemma {:induction false} SameLeaf(s: Store, s': Store, es: seq<Entry>, indexed: bool, sum: Checksum, lba: Lba,
                                    depth: nat)
    requires Image(s, s', es, indexed, sum) && (lba == 0 || lba in s)
    requires lba == 0 || depth == 0 || !(s[lba].Tree? && s[lba].level > 0 && indexed)
    ensures Draw(s', Mapped(lba, es), indexed, depth) == Draw(s, lba, indexed, depth)
  {
  }

  lemma {:induction false} RenamedFields(n: Node, es: seq<Entry>, sum: Checksum)
    requires n.Tree? && n.level > 0
    ensures var n' := Renamed(n, es, true, sum);
      n'.Tree? && n'.kids == MappedAll(n.kids, es) && n'.level == n.level && n'.body == n.body
  {
  }

  lemma {:induction false} DrawIndex(s: Store, lba: Lba, depth: nat)
    requires lba != 0 && lba in s && depth > 0 && s[lba].Tree? && s[lba].level > 0
    ensures var n := s[lba];
      Draw(s, lba, true, depth)
        == Index(n.level, n.body, seq(|n.kids|, i requires 0 <= i < |n.kids| => Draw(s, n.kids[i], true, depth - 1)))
  {
  }

  datatype Link = LeftLink | RightLink | FreeLink

  function Follow(n: Node, l: Link): Lba {
    match n
    case Chained(next, body) => if l.FreeLink? then next else 0
    case Tree(left, right, level, kids, body, checksum) =>
      match l case LeftLink => left case RightLink => right case FreeLink => 0
  }

  /** The contents met by following links. */
  ghost function Trail(s: Store, lba: Lba, l: Link, steps: nat): seq<Bytes>
    decreases steps
  {
    if lba == 0 || lba !in s || steps == 0 then [] else [s[lba].body] + Trail(s, Follow(s[lba], l), l, steps - 1)
  }

  /** Sibling links and the free chain lead through the same contents in the same order. */
  lemma {:induction false} SameTrail(s: Store, s': Store, es: seq<Entry>, indexed: bool, sum: Checksum, lba: Lba,
                                     l: Link, steps: nat)
    requires Closed(s, indexed) && Image(s, s', es, indexed, sum) && (lba == 0 || lba in s)
    ensures Trail(s', Mapped(lba, es), l, steps) == Trail(s, lba, l, steps)
    decreases steps
  {
    if lba != 0 && steps > 0 {
      assert PointersIn(s[lba], s, indexed);
      assert Follow(s'[Mapped(lba, es)], l) == Mapped(Follow(s[lba], l), es);
      SameTrail(s, s', es, indexed, sum, Follow(s[lba], l), l, steps - 1);
    }
  }

  /** The moved nodes at their places are the image of the old ones. */
  lemma {:induction false} MovedImage(lbas: seq<Lba>, nodes: seq<Node>, dst: Lba, bpn: nat, indexed: bool,
                                      sum: Checksum)
    requires |lbas| == |nodes| && Distinct(lbas) && 0 !in lbas && dst > 0 && bpn > 0
    ensures var es := Moves(lbas, dst, bpn);
      var places := seq(|lbas|, i requires 0 <= i < |lbas| => Place(dst, bpn, i));
      && Distinct(places)
      && Image(Stored(lbas, nodes), Stored(places, RenamedAll(nodes, es, indexed, sum)), es, indexed, sum)
  {
    var es := Moves(lbas, dst, bpn);
    var places := seq(|lbas|, i requires 0 <= i < |lbas| => Place(dst, bpn, i));
    assert forall i | 0 <= i < |places| :: places[i] > 0;
    forall i, j | 0 <= i < j < |places| ensures places[i] != places[j] {
      PlaceOrder(dst, bpn, i, j);
    }
    hide Place, Renamed;
    StoredNodes(lbas, nodes);
    StoredNodes(places, RenamedAll(nodes, es, indexed, sum));
    var s, s' := Stored(lbas, nodes), Stored(places, RenamedAll(nodes, es, indexed, sum));
    forall x | x in s
      ensures x != 0 && Mapped(x, es) != 0 && Mapped(x, es) in s'
      ensures s'[Mapped(x, es)] == Renamed(s[x], es, indexed, sum)
    {
      var i :| 0 <= i < |lbas| && lbas[i] == x;
      MovedTo(lbas, dst, bpn, i);
      assert places[i] == Place(dst, bpn, i) && places[i] in places;
    }
  }
}
