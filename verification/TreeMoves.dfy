/** Moving a whole tree, from its header on: the nodes that the walk finds are moved, and what is read back at the
    new addresses is the same tree. */
module TreeMoves {
  import opened Blocks
  import opened Relocation
  import opened TreeMover
  import RelocMap
  import TreeWalk

  type Lba = nat

  type Entry = RelocMap.Entry

  // ----- what is stored on a device

  ghost predicate NodeAt(dev: seq<Chunk>, x: Lba, bpn: nat) {
    0 < x < |dev| && dev[x].Part? && StoredAt(dev, x, bpn, dev[x].node)
  }

  /** All nodes that can be read from a device. */
  ghost function Readable(dev: seq<Chunk>, bpn: nat): Store {
    map x: Lba | 0 < x < |dev| && NodeAt(dev, x, bpn) :: dev[x].node
  }

  /** The child pointers of the node read at x. */
  function KidsAt(dev: seq<Chunk>, x: Lba, indexed: bool): seq<Lba> {
    if x < |dev| && dev[x].Part? && dev[x].node.Tree? && dev[x].node.level > 0 && indexed then dev[x].node.kids else []
  }

  function NextAt(dev: seq<Chunk>, x: Lba): Lba {
    if x < |dev| && dev[x].Part? && dev[x].node.Chained? then dev[x].node.next else 0
  }

  function KidsOf(dev: seq<Chunk>, indexed: bool): Lba -> seq<Lba> {
    x => KidsAt(dev, x, indexed)
  }

  function NextOf(dev: seq<Chunk>): Lba -> Lba {
    x => NextAt(dev, x)
  }

  /** A tree with its free chain: finite, no node met twice, all nodes readable, and sibling links that stay
      within the tree. */
  ghost predicate WholeTree(dev: seq<Chunk>, bpn: nat, indexed: bool, root: Lba, free: Lba, tree: seq<Lba>,
                            chain: seq<Lba>) {
    && TreeWalk.BreadthFirst(KidsOf(dev, indexed), root, tree) && TreeWalk.FreeChain(NextOf(dev), free, chain)
    && Distinct(tree + chain)
    && (forall i | 0 <= i < |tree| :: NodeAt(dev, tree[i], bpn) && SiblingsIn(dev[tree[i]].node, tree))
    && (forall i | 0 <= i < |chain| :: NodeAt(dev, chain[i], bpn) && dev[chain[i]].node.Chained?)
  }

  ghost predicate SiblingsIn(n: Node, tree: seq<Lba>) {
    n.Tree? && (n.left == 0 || n.left in tree) && (n.right == 0 || n.right in tree)
  }

  function NodeOf(dev: seq<Chunk>, x: Lba): Node {
    if x < |dev| && dev[x].Part? then dev[x].node else Chained(0, [])
  }

  function Images(dev: seq<Chunk>, lbas: seq<Lba>): (r: seq<Node>)
    ensures |r| == |lbas|
  {
    seq(|lbas|, i requires 0 <= i < |lbas| => NodeOf(dev, lbas[i]))
  }

  // ----- the collected nodes are closed under pointers

  lemma {:induction false} RealHolds(xs: seq<Lba>, x: Lba)
    requires x in xs && x != 0
    ensures x in TreeWalk.Real(xs)
  {
    var k := |xs| - 1;
    if x != xs[k] {
      assert xs == xs[..k] + [xs[k]];
      RealHolds(xs[..k], x);
    }
  }

  /** Every child of a node in breadth-first order is in that order. */
  lemma {:induction false} KidsHold(kids: Lba -> seq<Lba>, nodes: seq<Lba>, i: nat, x: Lba)
    requires i < |nodes| && x in kids(nodes[i]) && x != 0
    ensures x in TreeWalk.Kids(kids, nodes)
  {
    var k := |nodes| - 1;
    if i == k {
      RealHolds(kids(nodes[k]), x);
    } else {
      assert nodes[..k][i] == nodes[i];
      KidsHold(kids, nodes[..k], i, x);
    }
  }

  lemma {:induction false} ChildInTree(kids: Lba -> seq<Lba>, root: Lba, nodes: seq<Lba>, i: nat, x: Lba)
    requires TreeWalk.BreadthFirst(kids, root, nodes) && i < |nodes| && x in kids(nodes[i]) && x != 0
    ensures x in nodes
  {
    KidsHold(kids, nodes, i, x);
    assert forall y | y in TreeWalk.Kids(kids, nodes) :: y in [root] + TreeWalk.Kids(kids, nodes);
  }

  /** The link of a node of the chain is null or leads to its next node. */
  lemma {:induction false} NextInChain(link: Lba -> Lba, start: Lba, chain: seq<Lba>, i: nat)
    requires TreeWalk.FreeChain(link, start, chain) && i < |chain|
    ensures chain[i] != 0 && (link(chain[i]) == 0 || link(chain[i]) in chain)
    decreases |chain|
  {
    var rest := chain[1..];
    if i > 0 {
      NextInChain(link, link(start), rest, i - 1);
      assert rest[i - 1] == chain[i];
      assert forall y | y in rest :: y in chain;
    } else if rest != [] {
      assert rest[0] == chain[1];
    }
  }

  /** Whatever a node of the tree or of its free chain points to is one of them. */
  lemma {:induction false} PointersStay(dev: seq<Chunk>, bpn: nat, indexed: bool, root: Lba, free: Lba, tree: seq<Lba>,
                                        chain: seq<Lba>,
                                        s: Store, i: nat)
    requires WholeTree(dev, bpn, indexed, root, free, tree, chain) && i < |tree + chain|
    requires forall x :: x in s <==> x in tree + chain
    ensures PointersIn(dev[(tree + chain)[i]].node, s, indexed)
  {
    if i < |tree| {
      TreeNodeStays(dev, bpn, indexed, root, free, tree, chain, s, i);
    } else {
      var x := chain[i - |tree|];
      assert (tree + chain)[i] == x && NextOf(dev)(x) == dev[x].node.next;
      NextInChain(NextOf(dev), free, chain, i - |tree|);
    }
  }

  lemma {:induction false} TreeNodeStays(dev: seq<Chunk>, bpn: nat, indexed: bool, root: Lba, free: Lba, tree: seq<Lba>,
                                         chain: seq<Lba>,
                                         s: Store, i: nat)
    requires WholeTree(dev, bpn, indexed, root, free, tree, chain) && i < |tree|
    requires forall x :: x in s <==> x in tree + chain
    ensures PointersIn(dev[tree[i]].node, s, indexed)
  {
    var n := dev[tree[i]].node;
    assert SiblingsIn(n, tree);
    assert KidsOf(dev, indexed)(tree[i]) == if n.level > 0 && indexed then n.kids else [];
    if n.level > 0 && indexed {
      forall k | 0 <= k < |n.kids| ensures n.kids[k] == 0 || n.kids[k] in s {
        if n.kids[k] != 0 {
          ChildInTree(KidsOf(dev, indexed), root, tree, i, n.kids[k]);
        }
      }
    }
  }

  lemma {:induction false} NodesClosed(dev: seq<Chunk>, bpn: nat, indexed: bool, root: Lba, free: Lba, tree: seq<Lba>,
                                       chain: seq<Lba>)
    requires WholeTree(dev, bpn, indexed, root, free, tree, chain)
    ensures 0 !in tree + chain && forall i | 0 <= i < |tree + chain| :: NodeAt(dev, (tree + chain)[i], bpn)
    ensures Closed(Stored(tree + chain, Images(dev, tree + chain)), indexed)
    ensures root in tree + chain && (free == 0 || free in tree + chain)
  {
    var lbas := tree + chain;
    assert forall i | 0 <= i < |lbas| :: lbas[i] == if i < |tree| then tree[i] else chain[i - |tree|];
    assert forall i | 0 <= i < |lbas| :: NodeAt(dev, lbas[i], bpn);
    assert tree[0] == root;
    StoredNodes(lbas, Images(dev, lbas));
    var s := Stored(lbas, Images(dev, lbas));
    forall x | x in s ensures PointersIn(s[x], s, indexed) {
      var i :| 0 <= i < |lbas| && lbas[i] == x;
      PointersStay(dev, bpn, indexed, root, free, tree, chain, s, i);
    }
  }

  // ----- what is read back

  /** Every node of a store is on the device, at its address. */
  lemma {:induction false} OnDevice(dev: seq<Chunk>, bpn: nat, lbas: seq<Lba>, nodes: seq<Node>)
    requires bpn > 0 && |lbas| == |nodes| && Distinct(lbas)
    requires forall i | 0 <= i < |lbas| :: lbas[i] > 0 && StoredAt(dev, lbas[i], bpn, nodes[i])
    ensures forall x | x in Stored(lbas, nodes) ::
      x in Readable(dev, bpn) && Readable(dev, bpn)[x] == Stored(lbas, nodes)[x]
  {
    StoredNodes(lbas, nodes);
    forall x | x in Stored(lbas, nodes)
      ensures x in Readable(dev, bpn) && Readable(dev, bpn)[x] == Stored(lbas, nodes)[x]
    {
      var i :| 0 <= i < |lbas| && lbas[i] == x;
      assert dev[x + 0] == Part(nodes[i], 0);
      assert NodeAt(dev, x, bpn);
    }
  }

  /** A store read from where nothing moved is its own image. */
  lemma {:induction false} Unmoved(s: Store, s': Store, indexed: bool, sum: Checksum)
    requires 0 !in s && forall x | x in s :: x in s' && s'[x] == s[x]
    ensures Image(s, s', [], indexed, sum)
  {
    forall x | x in s ensures Mapped(x, []) == x && Renamed(s[x], [], indexed, sum) == s[x] {
      assert s[x].Tree? ==> MappedAll(s[x].kids, []) == s[x].kids;
    }
  }

  /** Two stores in which one node starts the same tree and the same trails. */
  ghost predicate SameFrom(s: Store, x: Lba, s': Store, x': Lba, indexed: bool) {
    && (forall depth: nat :: Draw(s', x', indexed, depth) == Draw(s, x, indexed, depth))
    && (forall l, steps: nat :: Trail(s', x', l, steps) == Trail(s, x, l, steps))
  }

  lemma {:induction false} ImageSame(s: Store, s': Store, es: seq<Entry>, indexed: bool, sum: Checksum, x: Lba)
    requires Closed(s, indexed) && Image(s, s', es, indexed, sum) && (x == 0 || x in s)
    ensures SameFrom(s, x, s', Mapped(x, es), indexed)
  {
    forall depth: nat ensures Draw(s', Mapped(x, es), indexed, depth) == Draw(s, x, indexed, depth) {
      SameTree(s, s', es, indexed, sum, x, depth);
    }
    forall l, steps: nat ensures Trail(s', Mapped(x, es), l, steps) == Trail(s, x, l, steps) {
      SameTrail(s, s', es, indexed, sum, x, l, steps);
    }
  }

  /** From the old device to the new one. */
  lemma {:induction false} BothSame(s: Store, s0: Store, s1: Store, es: seq<Entry>, indexed: bool, sum: Checksum,
                                    x: Lba)
    requires Closed(s, indexed) && Image(s, s0, [], indexed, sum) && Image(s, s1, es, indexed, sum)
    requires (x == 0 || x in s)
    ensures SameFrom(s0, x, s1, Mapped(x, es), indexed)
  {
    ImageSame(s, s0, [], indexed, sum, x);
    ImageSame(s, s1, es, indexed, sum, x);
    assert Mapped(x, []) == x;
  }

  /** The node at x, moved to x', kept its checksum where no pointer changed and got a valid one elsewhere. */
  ghost predicate SumKept(s: Store, x: Lba, s': Store, x': Lba, sum: Checksum) {
    x in s && x' in s' && SumFollows(s[x], s'[x'], sum)
  }

  /** Everything that moving a tree should keep. */
  ghost predicate SameTrees(dev: seq<Chunk>, dev': seq<Chunk>, bpn: nat, lbas: seq<Lba>, dst: Lba, indexed: bool,
                            sum: Checksum) {
    forall i | 0 <= i < |lbas| ::
      && SameFrom(Readable(dev, bpn), lbas[i], Readable(dev', bpn), Place(dst, bpn, i), indexed)
      && SumKept(Readable(dev, bpn), lbas[i], Readable(dev', bpn), Place(dst, bpn, i), sum)
  }

  lemma {:induction false} ReadBack(dev: seq<Chunk>, dev': seq<Chunk>, bpn: nat, lbas: seq<Lba>, dst: Lba,
                                    indexed: bool, sum: Checksum)
    requires bpn > 0 && dst > 0 && Distinct(lbas) && 0 !in lbas
    requires forall i | 0 <= i < |lbas| :: NodeAt(dev, lbas[i], bpn)
    requires var nodes := RenamedAll(Images(dev, lbas), Moves(lbas, dst, bpn), indexed, sum);
      |nodes| == |lbas| && forall i | 0 <= i < |lbas| :: StoredAtPlace(dev', dst, bpn, nodes, i)
    ensures var s := Stored(lbas, Images(dev, lbas));
      && Image(s, Readable(dev, bpn), [], indexed, sum)
      && Image(s, Readable(dev', bpn), Moves(lbas, dst, bpn), indexed, sum)
  {
    hide Place, Renamed, RenamedAll, Moves, StoredAt, Readable, Image, Stored;
    var s, es := Stored(lbas, Images(dev, lbas)), Moves(lbas, dst, bpn);
    OnDevice(dev, bpn, lbas, Images(dev, lbas));
    StoredNodes(lbas, Images(dev, lbas));
    Unmoved(s, Readable(dev, bpn), indexed, sum);
    MovedImage(lbas, Images(dev, lbas), dst, bpn, indexed, sum);
    var places := seq(|lbas|, i requires 0 <= i < |lbas| => Place(dst, bpn, i));
    var nodes := RenamedAll(Images(dev, lbas), es, indexed, sum);
    forall i | 0 <= i < |places| ensures places[i] > 0 && StoredAt(dev', places[i], bpn, nodes[i]) {
      assert StoredAtPlace(dev', dst, bpn, nodes, i);
      PlaceAfter(dst, bpn, i);
    }
    OnDevice(dev', bpn, places, nodes);
    ImageWithin(s, Stored(places, nodes), Readable(dev', bpn), es, indexed, sum);
  }

  lemma {:induction false} ImageWithin(s: Store, s1: Store, s2: Store, es: seq<Entry>, indexed: bool, sum: Checksum)
    requires Image(s, s1, es, indexed, sum) && forall x | x in s1 :: x in s2 && s2[x] == s1[x]
    ensures Image(s, s2, es, indexed, sum)
  {
  }

  lemma {:induction false} TreesSame(dev: seq<Chunk>, dev': seq<Chunk>, bpn: nat, lbas: seq<Lba>, dst: Lba,
                                     indexed: bool, sum: Checksum)
    requires bpn > 0 && dst > 0 && Distinct(lbas) && 0 !in lbas
    requires forall i | 0 <= i < |lbas| :: NodeAt(dev, lbas[i], bpn)
    requires var s := Stored(lbas, Images(dev, lbas));
      && Closed(s, indexed) && Image(s, Readable(dev, bpn), [], indexed, sum)
      && Image(s, Readable(dev', bpn), Moves(lbas, dst, bpn), indexed, sum)
    ensures SameTrees(dev, dev', bpn, lbas, dst, indexed, sum)
  {
    hide Place, Renamed, Moves, StoredAt, Readable, SameFrom, SumKept, Closed, Stored;
    var s, s0, s1 := Stored(lbas, Images(dev, lbas)), Readable(dev, bpn), Readable(dev', bpn);
    var es := Moves(lbas, dst, bpn);
    StoredNodes(lbas, Images(dev, lbas));
    forall i | 0 <= i < |lbas|
      ensures SameFrom(s0, lbas[i], s1, Place(dst, bpn, i), indexed)
      ensures SumKept(s0, lbas[i], s1, Place(dst, bpn, i), sum)
    {
      MovedTo(lbas, dst, bpn, i);
      BothSame(s, s0, s1, es, indexed, sum, lbas[i]);
      SumMoved(s, s0, s1, es, indexed, sum, lbas[i]);
    }
  }

  lemma {:induction false} SumMoved(s: Store, s0: Store, s1: Store, es: seq<Entry>, indexed: bool, sum: Checksum,
                                    x: Lba)
    requires x in s && Image(s, s0, [], indexed, sum) && Image(s, s1, es, indexed, sum)
    ensures SumKept(s0, x, s1, Mapped(x, es), sum)
  {
    assert Mapped(x, []) == x && (s[x].Tree? ==> MappedAll(s[x].kids, []) == s[x].kids);
    assert s0[x] == s[x];
    RenamedSum(s[x], es, indexed, sum);
  }

  // ----- the move

  /** collect_tree_nodes and relocate_tree: read back from the device, every node at its new address starts the
      same tree, the same sibling links and the same free chain, with a checksum recomputed exactly where a pointer
      changed; so do the root and the free list that the header then names. */
  method MoveTree(m: Mover, bpn0: nat, dst: Lba, indexed: bool, sum: Checksum, ghost tree: seq<Lba>,
                  ghost chain: seq<Lba>)
    requires var bpn := if bpn0 == 0 then 1 else bpn0;
      m.root != 0 ==> WholeTree(m.dev, bpn, indexed, m.root, m.freeNode, tree, chain)
                      && dst > 0 && Place(dst, bpn, |tree + chain|) <= |m.dev|
    modifies m
    ensures old(m.root) == 0 ==>
      m.dev == old(m.dev) && m.used == old(m.used) && m.root == 0 && m.freeNode == old(m.freeNode)
    ensures old(m.root) != 0 ==> var bpn := if bpn0 == 0 then 1 else bpn0;
      && SameTrees(old(m.dev), m.dev, bpn, tree + chain, dst, indexed, sum)
      && SameFrom(Readable(old(m.dev), bpn), old(m.root), Readable(m.dev, bpn), m.root, indexed)
      && SameFrom(Readable(old(m.dev), bpn), old(m.freeNode), Readable(m.dev, bpn), m.freeNode, indexed)
      && (forall x | 0 <= x < |m.dev| && !InNew(x, dst, bpn, |tree + chain|) ::
          |m.dev| == |old(m.dev)| && m.dev[x] == old(m.dev)[x])
      && (forall x :: x in m.used <==> UsedAfter(x, old(m.used), tree + chain, bpn, dst))
      && Recorded(old(m.moved), m.moved, tree + chain, dst, bpn)
  {
    hide Place, Moves, Readable, SameFrom, SameTrees, Closed, StoredAt, StoredAtPlace, RenamedAll, UsedAfter, Image,
         WholeTree, Mapped, Recorded,
         TreeWalk.BreadthFirst, TreeWalk.FreeChain, KidsOf, NextOf, Images, Stored;
    ghost var bpn, dev0 := if bpn0 == 0 then 1 else bpn0, m.dev;
    ghost var root, free, lbas0 := m.root, m.freeNode, tree + chain;
    if m.root != 0 {
      WalkReady(dev0, bpn, indexed, root, free, tree, chain);
    }
    var lbas := TreeWalk.CollectNodes(KidsOf(m.dev, indexed), NextOf(m.dev), m.root, m.freeNode, tree, chain);
    ghost var nodes := [];
    if m.root != 0 {
      NodesClosed(dev0, bpn, indexed, root, free, tree, chain);
      nodes := Images(dev0, lbas);
      ImagesStored(dev0, bpn, lbas);
    }
    m.Relocate(lbas, bpn0, dst, indexed, sum, nodes);
    if root != 0 {
      SameLength(nodes, Moves(lbas, dst, bpn), indexed, sum);
      ReadBack(dev0, m.dev, bpn, lbas, dst, indexed, sum);
      TreesSame(dev0, m.dev, bpn, lbas, dst, indexed, sum);
      StoredNodes(lbas, nodes);
      var s := Stored(lbas, nodes);
      BothSame(s, Readable(dev0, bpn), Readable(m.dev, bpn), Moves(lbas, dst, bpn), indexed, sum, root);
      BothSame(s, Readable(dev0, bpn), Readable(m.dev, bpn), Moves(lbas, dst, bpn), indexed, sum, free);
    }
  }

  // ----- references to moved nodes

  /** update_sme_refs as the compaction calls it: only if data blocks were moved too, the relocation map made from the
      recorded moves is looked up for each reference; a reference to nothing that moved is left alone. */
  method UpdateReferences(moved: seq<Entry>, blocksMoved: nat, refs: seq<Lba>) returns (refs': seq<Lba>)
    ensures |refs'| == |refs|
    ensures forall k | 0 <= k < |refs| :: refs'[k] == if blocksMoved > 0 then Redirected(refs[k], moved) else refs[k]
  {
    if blocksMoved == 0 {
      return refs;
    }
    hide RelocMap.TableOk;
    var table;
    ghost var p;
    table, p := RelocMap.Create(moved, 64);
    refs' := [];
    while |refs'| < |refs|
      invariant |refs'| <= |refs|
      invariant forall k | 0 <= k < |refs'| :: refs'[k] == Redirected(refs[k], moved)
    {
      var x := refs[|refs'|];
      if x != 0 {
        var n := RelocMap.Get(table, x, moved, p);
        if n != 0 && n != x {
          x := n;
        }
      }
      refs' := refs' + [x];
    }
  }

  function Redirected(x: Lba, moved: seq<Entry>): Lba {
    var n := RelocMap.NewOr(RelocMap.First(moved, x), 0);
    if x == 0 || n == 0 then x else n
  }

  /** Moving a tree and then updating the references to its nodes. If data blocks were moved too, each reference to a
      node leads to the same tree as before, at the node's new place; all references do exactly if data blocks were
      moved or no referenced node was. Any other reference is left alone. */
  method MoveAndUpdate(m: Mover, bpn0: nat, dst: Lba, indexed: bool, sum: Checksum, blocksMoved: nat, refs: seq<Lba>,
                       ghost tree: seq<Lba>, ghost chain: seq<Lba>)
    returns (refs': seq<Lba>)
    requires var bpn := if bpn0 == 0 then 1 else bpn0;
      && m.root != 0 && WholeTree(m.dev, bpn, indexed, m.root, m.freeNode, tree, chain)
      && dst > 0 && Place(dst, bpn, |tree + chain|) <= |m.dev|
    requires m.moved == []
    modifies m
    ensures |refs'| == |refs|
    ensures forall k | 0 <= k < |refs| && refs[k] !in tree + chain :: refs'[k] == refs[k]
    ensures var bpn := if bpn0 == 0 then 1 else bpn0;
      forall k, i | 0 <= k < |refs| && 0 <= i < |tree + chain| && refs[k] == (tree + chain)[i] ::
        && (refs'[k] == dst + i * bpn <==> blocksMoved > 0 || refs[k] == dst + i * bpn)
        && (refs'[k] == dst + i * bpn ==>
            SameFrom(Readable(old(m.dev), bpn), refs[k], Readable(m.dev, bpn), refs'[k], indexed))
  {
    hide Place, Moves, Readable, SameFrom, Closed, StoredAt, StoredAtPlace, RenamedAll, UsedAfter, Image, WholeTree,
         Mapped, KidsOf, NextOf, Images, Stored, Recorded, Redirected, TreeWalk.BreadthFirst, TreeWalk.FreeChain;
    ghost var bpn, lbas := if bpn0 == 0 then 1 else bpn0, tree + chain;
    WalkReady(m.dev, bpn, indexed, m.root, m.freeNode, tree, chain);
    MoveTree(m, bpn0, dst, indexed, sum, tree, chain);
    refs' := UpdateReferences(m.moved, blocksMoved, refs);
    forall k | 0 <= k < |refs| && refs[k] !in lbas ensures refs'[k] == refs[k] {
      OthersStay([], m.moved, lbas, dst, bpn, refs[k]);
    }
    forall k, i | 0 <= k < |refs| && 0 <= i < |lbas| && refs[k] == lbas[i]
      ensures refs'[k] == dst + i * bpn <==> blocksMoved > 0 || refs[k] == dst + i * bpn
      ensures dst + i * bpn == Place(dst, bpn, i)
    {
      PlaceIs(dst, bpn, i);
      NodeFollowed([], m.moved, lbas, dst, bpn, i);
    }
  }

  lemma {:induction false} OthersStay(moved0: seq<Entry>, moved: seq<Entry>, lbas: seq<Lba>, dst: Lba, bpn: nat, x: Lba)
    requires Recorded(moved0, moved, lbas, dst, bpn) && x !in lbas && RelocMap.First(moved0, x).None?
    ensures Redirected(x, moved) == x
  {
  }

  lemma {:induction false} NodeFollowed(moved0: seq<Entry>, moved: seq<Entry>, lbas: seq<Lba>, dst: Lba, bpn: nat,
                                        i: nat)
    requires Recorded(moved0, moved, lbas, dst, bpn) && i < |lbas| && RelocMap.First(moved0, lbas[i]).None?
    requires lbas[i] != 0 && dst > 0
    ensures Redirected(lbas[i], moved) == Place(dst, bpn, i)
  {
    PlaceAfter(dst, bpn, i);
  }

  lemma {:induction false} PlaceIs(dst: Lba, bpn: nat, i: nat)
    ensures Place(dst, bpn, i) == dst + i * bpn
  {
  }

  lemma {:induction false} WalkReady(dev: seq<Chunk>, bpn: nat, indexed: bool, root: Lba, free: Lba, tree: seq<Lba>,
                                     chain: seq<Lba>)
    requires WholeTree(dev, bpn, indexed, root, free, tree, chain)
    ensures TreeWalk.BreadthFirst(KidsOf(dev, indexed), root, tree) && TreeWalk.FreeChain(NextOf(dev), free, chain)
    ensures Distinct(tree + chain) && |tree + chain| > 0 && 0 !in tree + chain
  {
  }

  lemma {:induction false} ImagesStored(dev: seq<Chunk>, bpn: nat, lbas: seq<Lba>)
    requires forall i | 0 <= i < |lbas| :: NodeAt(dev, lbas[i], bpn)
    ensures AllStored(dev, lbas, bpn, Images(dev, lbas))
  {
  }
}
