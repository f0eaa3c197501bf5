/** Allocation of B+Tree nodes: a chain of free nodes on disk, refilled by clumps taken from the bitmap. */
module NodeAllocator {
  import opened Blocks
  import opened Bitmap
  import opened Relocation

  type Lba = nat

  /** The free chain from `head`: each node's first bytes hold the address of the next, 0 ends it. */
  ghost predicate Linked(link: seq<Lba>, head: Lba, chain: seq<Lba>)
    decreases |chain|
  {
    if chain == [] then head == 0
    else head == chain[0] && 0 < head < |link| && Linked(link, link[head], chain[1..])
  }

  /** Links elsewhere do not matter. */
  lemma {:induction false} LinkedFrame(link: seq<Lba>, link': seq<Lba>, head: Lba, chain: seq<Lba>)
    requires Linked(link, head, chain) && |link| == |link'| && forall x | x in chain && x < |link| ::
      link'[x] == link[x]
    ensures Linked(link', head, chain)
    decreases |chain|
  {
    if chain != [] {
      assert forall x | x in chain[1..] :: x in chain;
      LinkedFrame(link, link', link[head], chain[1..]);
    }
  }

  ghost predicate NoRepeats(s: seq<Lba>) {
    forall i, j | 0 <= i < j < |s| :: s[i] != s[j]
  }

  /** Two nodes share no block. */
  ghost predicate Apart(nodes: set<Lba>, bpn: nat) {
    forall a, b, x {:trigger InNode(x, a, bpn), InNode(x, b, bpn)}
      | a in nodes && b in nodes && InNode(x, a, bpn) && InNode(x, b, bpn) :: a == b
  }

  ghost predicate NodeOk(a: Lba, bpn: nat, bits: seq<bool>, total: nat) {
    0 < a && a + bpn <= total <= |bits| && forall x: Lba | InNode(x, a, bpn) :: bits[x]
  }

  ghost predicate NodesOk(nodes: set<Lba>, bpn: nat, bits: seq<bool>, total: nat) {
    Apart(nodes, bpn) && forall a | a in nodes :: NodeOk(a, bpn, bits, total)
  }

  /** The nodes of a clump. */
  ghost function Clump(start: Lba, bpn: nat, n: nat): set<Lba> {
    if n == 0 then {} else Clump(start, bpn, n - 1) + {Place(start, bpn, n - 1)}
  }

  lemma {:induction false} ClumpMember(start: Lba, bpn: nat, n: nat, a: Lba)
    ensures a in Clump(start, bpn, n) <==> exists i :: 0 <= i < n && a == Place(start, bpn, i)
  {
    if n > 0 {
      ClumpMember(start, bpn, n - 1, a);
    }
  }

  /** The clump as a chain, from node i on. */
  function ClumpChain(start: Lba, bpn: nat, i: nat, n: nat): seq<Lba>
    requires i <= n
    decreases n - i
  {
    if i == n then [] else [Place(start, bpn, i)] + ClumpChain(start, bpn, i + 1, n)
  }

  lemma {:induction false} ClumpChainMember(start: Lba, bpn: nat, i: nat, n: nat)
    requires i <= n
    ensures |ClumpChain(start, bpn, i, n)| == n - i
    ensures forall k | 0 <= k < n - i :: ClumpChain(start, bpn, i, n)[k] == Place(start, bpn, i + k)
    decreases n - i
  {
    if i < n {
      hide Place;
      ClumpChainMember(start, bpn, i + 1, n);
    }
  }

  /** Blocks of a clump lie in its run, in disjoint nodes. */
  lemma {:induction false} ClumpBlocks(start: Lba, bpn: nat, n: nat, i: nat, x: Lba)
    requires i < n && InNode(x, Place(start, bpn, i), bpn)
    ensures start <= x < Place(start, bpn, n)
    ensures forall j | 0 <= j < n && InNode(x, Place(start, bpn, j), bpn) :: i == j
  {
    PlaceNext(start, bpn, 0);
    PlaceOrder(start, bpn, i, n);
    if i > 0 {
      PlaceOrder(start, bpn, 0, i);
    }
    forall j | 0 <= j < n && InNode(x, Place(start, bpn, j), bpn) ensures i == j {
      if i < j {
        PlaceOrder(start, bpn, i, j);
      } else if j < i {
        PlaceOrder(start, bpn, j, i);
      }
    }
  }

  /** Every block of the run belongs to a node of the clump. */
  lemma {:induction false} ClumpFills(start: Lba, bpn: nat, n: nat, x: Lba) returns (i: nat)
    requires start <= x < Place(start, bpn, n)
    ensures i < n && InNode(x, Place(start, bpn, i), bpn)
  {
    i := 0;
    PlaceNext(start, bpn, 0);
    if n > 0 {
      PlaceNext(start, bpn, n - 1);
      if x >= Place(start, bpn, n - 1) {
        i := n - 1;
      } else {
        hide Place;
        i := ClumpFills(start, bpn, n - 1, x);
      }
    }
  }

  /** Nodes made from a free run are apart from each other and from all existing nodes. */
  lemma {:induction false} ClumpJoins(nodes: set<Lba>, bits: seq<bool>, bits': seq<bool>, total: nat, start: Lba,
                                      bpn: nat, n: nat)
    requires bpn > 0 && NodesOk(nodes, bpn, bits, total) && |bits| == |bits'| && total <= |bits|
    requires Place(start, bpn, n) <= total && start > 0 && FreeRun(bits, start, Place(start, bpn, n) - start)
    requires forall x | 0 <= x < |bits| :: bits'[x] == (bits[x] || start <= x < Place(start, bpn, n))
    ensures NodesOk(nodes + Clump(start, bpn, n), bpn, bits', total) && nodes !! Clump(start, bpn, n)
  {
    PlaceAfter(start, bpn, n);
    hide Place;
    var clump := Clump(start, bpn, n);
    forall a | a in clump ensures NodeOk(a, bpn, bits', total) && exists i :: 0 <= i < n && a == Place(start, bpn, i) {
      ClumpMember(start, bpn, n, a);
      var i :| 0 <= i < n && a == Place(start, bpn, i);
      ClumpBlocks(start, bpn, n, i, a);
      ClumpBlocks(start, bpn, n, i, a + bpn - 1);
      assert InNode(a, a, bpn);
      forall x: Lba | InNode(x, a, bpn) ensures bits'[x] {
        ClumpBlocks(start, bpn, n, i, x);
      }
    }
    forall a | a in nodes ensures NodeOk(a, bpn, bits', total) && InNode(a, a, bpn) && a !in clump {
      assert NodeOk(a, bpn, bits, total);
      assert InNode(a, a, bpn) && bits[a];
      if a in clump {
        var i :| 0 <= i < n && a == Place(start, bpn, i);
        ClumpBlocks(start, bpn, n, i, a);
      }
    }
    forall a, b, x | a in nodes + clump && b in nodes + clump && InNode(x, a, bpn) && InNode(x, b, bpn) ensures a == b {
      SameNode(nodes, bits, total, start, bpn, n, a, b, x);
    }
  }

  lemma {:induction false} SameNode(nodes: set<Lba>, bits: seq<bool>, total: nat, start: Lba, bpn: nat, n: nat, a: Lba,
                                    b: Lba, x: Lba)
    requires NodesOk(nodes, bpn, bits, total) && FreeRun(bits, start, Place(start, bpn, n) - start)
    requires start <= Place(start, bpn, n)
    requires a in nodes + Clump(start, bpn, n) && b in nodes + Clump(start, bpn, n) && InNode(x, a, bpn)
    requires InNode(x, b, bpn)
    ensures a == b
  {
    hide Place;
    ClumpMember(start, bpn, n, a);
    ClumpMember(start, bpn, n, b);
    if a in Clump(start, bpn, n) {
      var i :| 0 <= i < n && a == Place(start, bpn, i);
      ClumpBlocks(start, bpn, n, i, x);
      assert b in nodes ==> NodeOk(b, bpn, bits, total);
    } else {
      assert NodeOk(a, bpn, bits, total);
      if b in Clump(start, bpn, n) {
        var i :| 0 <= i < n && b == Place(start, bpn, i);
        ClumpBlocks(start, bpn, n, i, x);
      }
    }
  }

  // ----- clump sizes

  /** The clump size after k halvings. */
  function Halved(clump: nat, k: nat): nat {
    if k == 0 then clump else Halved(clump, k - 1) / 2
  }

  function Pow2(k: nat): nat {
    if k == 0 then 1 else 2 * Pow2(k - 1)
  }

  /** The k-th size is the clump size over 2^k, rounded down: no node more is dropped than halving asks for. */
  lemma {:induction false} HalvedExactly(clump: nat, k: nat)
    ensures Halved(clump, k) * Pow2(k) <= clump < (Halved(clump, k) + 1) * Pow2(k)
  {
    if k > 0 {
      HalvedExactly(clump, k - 1);
      HalfBounds(clump, Halved(clump, k - 1), Pow2(k - 1));
    }
  }

  lemma {:induction false} HalfBounds(c: nat, n: nat, p: nat)
    requires n * p <= c < (n + 1) * p
    ensures n / 2 * (2 * p) <= c < (n / 2 + 1) * (2 * p)
  {
    var h := n / 2;
    var a := h * p;
    assert h * (2 * p) == 2 * a && (h + 1) * (2 * p) == 2 * a + 2 * p;
    if n == 2 * h {
      assert (2 * h) * p == 2 * a && (2 * h + 1) * p == 2 * a + p;
    } else {
      assert n == 2 * h + 1;
      assert (2 * h + 1) * p == 2 * a + p && (2 * h + 2) * p == 2 * a + 2 * p;
    }
  }

  /** None of the first k sizes had room. */
  ghost predicate NoneLarger(bits: seq<bool>, nextFree: nat, total: nat, clump: nat, bpn: nat, k: nat) {
    forall j | 0 <= j < k :: NotFound(bits, nextFree, total, Halved(clump, j) * bpn)
  }

  /** n nodes is the first of the halved sizes that had room. */
  ghost predicate Largest(bits: seq<bool>, nextFree: nat, total: nat, clump: nat, bpn: nat, n: nat) {
    exists k :: n == Halved(clump, k) && NoneLarger(bits, nextFree, total, clump, bpn, k)
  }

  lemma {:induction false} FirstSize(bits: seq<bool>, nextFree: nat, total: nat, clump: nat, bpn: nat)
    ensures Halved(clump, 0) == clump && NoneLarger(bits, nextFree, total, clump, bpn, 0)
  {
  }

  lemma {:induction false} NextSize(bits: seq<bool>, nextFree: nat, total: nat, clump: nat, bpn: nat, k: nat)
    requires NoneLarger(bits, nextFree, total, clump, bpn, k)
    requires NotFound(bits, nextFree, total, Halved(clump, k) * bpn)
    ensures Halved(clump, k + 1) == Halved(clump, k) / 2 && NoneLarger(bits, nextFree, total, clump, bpn, k + 1)
  {
    hide NotFound;
  }

  // ----- the clump's free chain

  lemma {:induction false} ChainGrows(link: seq<Lba>, link': seq<Lba>, start: Lba, bpn: nat, i: nat, n: nat)
    requires bpn > 0 && 0 < i < n && Place(start, bpn, n) <= |link| == |link'| && start > 0
    requires Linked(link, if i + 1 < n then Place(start, bpn, i + 1) else 0, ClumpChain(start, bpn, i + 1, n))
    requires link' == link[Place(start, bpn, i) := if i + 1 < n then Place(start, bpn, i + 1) else 0]
    ensures Linked(link', Place(start, bpn, i), ClumpChain(start, bpn, i, n))
  {
    PlaceOrder(start, bpn, i, n);
    PlaceAfter(start, bpn, i);
    var rest := ClumpChain(start, bpn, i + 1, n);
    ClumpChainMember(start, bpn, i + 1, n);
    forall k | 0 <= k < |rest| ensures rest[k] != Place(start, bpn, i) {
      PlaceOrder(start, bpn, i, i + 1 + k);
    }
    hide Place;
    LinkedFrame(link, link', if i + 1 < n then Place(start, bpn, i + 1) else 0, rest);
    assert ClumpChain(start, bpn, i, n)[1..] == rest;
  }

  lemma {:induction false} NoChain(link: seq<Lba>, start: Lba, bpn: nat, n: nat)
    ensures Linked(link, 0, ClumpChain(start, bpn, n, n))
  {
  }

  ghost function Elements(s: seq<Lba>): set<Lba> {
    set x | x in s
  }

  /** The first node is handed out, the others make up the chain. */
  lemma {:induction false} ClumpSplit(start: Lba, bpn: nat, n: nat)
    requires bpn > 0 && n > 0
    ensures var chain := ClumpChain(start, bpn, 1, n);
      Clump(start, bpn, n) == {start} + Elements(chain) && start !in chain && NoRepeats(chain)
  {
    PlaceNext(start, bpn, 0);
    var chain := ClumpChain(start, bpn, 1, n);
    ClumpChainMember(start, bpn, 1, n);
    forall k | 0 <= k < |chain| ensures chain[k] != start {
      PlaceOrder(start, bpn, 0, 1 + k);
    }
    forall i, j | 0 <= i < j < |chain| ensures chain[i] != chain[j] {
      PlaceOrder(start, bpn, 1 + i, 1 + j);
    }
    hide Place;
    forall a ensures a in Clump(start, bpn, n) <==> a == start || a in chain {
      ClumpMember(start, bpn, n, a);
      if i :| 0 <= i < n && a == Place(start, bpn, i) {
        if i > 0 {
          assert chain[i - 1] == a;
        }
      }
      if k :| 0 <= k < |chain| && chain[k] == a {
        assert a == Place(start, bpn, 1 + k);
      }
      assert start == Place(start, bpn, 0);
    }
  }

  class Allocator {
    const bitmap: AllocationBitmap
    /** Blocks per node. */
    const bpn: nat
    /** The first eight bytes of every block. */
    var link: seq<Lba>
    /** The tree header's free-node list. */
    var freeNode: Lba
    var freeNodes: nat

    /** Nodes handed out and not returned, the free chain, and all nodes ever made. */
    ghost var live: set<Lba>
    ghost var chain: seq<Lba>
    ghost var nodes: set<Lba>

    /** The chain is acyclic, in bounds and as long as recorded; live and chained nodes are all nodes,
        which share no block and stay allocated in the bitmap. */
    ghost predicate Valid()
      reads this, bitmap
    {
      && bpn > 0 && bitmap.Valid() && bitmap.loaded && 0 < bitmap.total == |link| && bitmap.bits[0]
      && Linked(link, freeNode, chain) && NoRepeats(chain) && freeNodes == |chain|
      && live !! Elements(chain) && live + Elements(chain) == nodes
      && NodesOk(nodes, bpn, bitmap.bits, bitmap.total)
    }

    /** A tree without nodes on a volume whose block 0 is taken. */
    constructor (bitmap: AllocationBitmap, bpn: nat, link: seq<Lba>)
      requires bitmap.Valid() && bitmap.loaded && 0 < bitmap.total == |link| && bitmap.bits[0] && bpn > 0
      ensures Valid() && live == {} && chain == [] && nodes == {} && this.bitmap == bitmap && this.bpn == bpn
    {
      this.bitmap, this.bpn, this.link := bitmap, bpn, link;
      freeNode, freeNodes := 0, 0;
      live, chain, nodes := {}, [], {};
    }

    /** obmafs3_btree_alloc_node: pops a free node, or takes a clump from the bitmap. The node handed out is
        not live, and neither is any of its blocks. */
    method AllocNode(clump: nat, defaultClump: nat, padding: seq<bool>) returns (st: Status, node: Lba)
      requires Valid() && defaultClump > 0 && |bitmap.bits| + |padding| == 64 * ((bitmap.total + 63) / 64)
      modifies this, bitmap
      ensures Valid() && st != Inval
      ensures st == NoSpace ==> NotFound(bitmap.bits, bitmap.nextFree, bitmap.total, bpn)
      ensures st == Ok && old(chain) == [] ==>
        Largest(old(bitmap.bits), old(bitmap.nextFree), bitmap.total,
                if clump == 0 then defaultClump else clump, bpn, |chain| + 1)
      ensures st == NoSpace ==>
        live == old(live) && nodes == old(nodes) && chain == old(chain) == [] && bitmap.bits == old(bitmap.bits)
      ensures st == Ok ==> node !in old(live) && live == old(live) + {node} && old(nodes) <= nodes
      ensures st == Ok ==> |bitmap.bits| == |old(bitmap.bits)|
      ensures st == Ok ==> forall x: Lba | x < |bitmap.bits| && bitmap.bits[x] && !old(bitmap.bits)[x] :: Taken(x)
      ensures st == Ok ==> forall a, x | a in old(live) && InNode(x, a, bpn) :: !InNode(x, node, bpn)
      ensures st == Ok && old(chain) != [] ==>
        node == old(chain)[0] && nodes == old(nodes) && bitmap.bits == old(bitmap.bits)
    {
      if freeNode != 0 && freeNodes > 0 {
        node := PopNode();
        return Ok, node;
      }
      EmptyChain(link, freeNode, chain);
      ghost var k;
      st, node, k := TakeClump(if clump == 0 then defaultClump else clump, padding);
    }

    /** Pops the head of the free chain. */
    method PopNode() returns (node: Lba)
      requires Valid() && freeNode != 0 && freeNodes > 0
      modifies this`freeNode, this`freeNodes, this`live, this`chain
      ensures Valid() && node == old(chain)[0] && node !in old(live) && live == old(live) + {node}
      ensures forall a, x | a in old(live) && InNode(x, a, bpn) :: !InNode(x, node, bpn)
    {
      node := freeNode;
      assert node in chain;
      PopChain(live, chain);
      freeNode := link[freeNode];
      freeNodes := freeNodes - 1;
      live := live + {node};
      chain := chain[1..];
    }

    /** Takes the largest clump that fits, halving the wish until a single node is left, and chains all its
        nodes but the first. */
    method TakeClump(clump: nat, padding: seq<bool>) returns (st: Status, node: Lba, ghost k: nat)
      requires Valid() && clump > 0 && chain == [] && freeNode == 0
      requires |bitmap.bits| + |padding| == 64 * ((bitmap.total + 63) / 64)
      modifies this, bitmap
      ensures Valid() && st != Inval
      ensures NoneLarger(old(bitmap.bits), old(bitmap.nextFree), bitmap.total, clump, bpn, k)
      ensures st == Ok ==> |chain| + 1 == Halved(clump, k)
      ensures st == NoSpace ==> NotFound(bitmap.bits, bitmap.nextFree, bitmap.total, bpn)
      ensures st == NoSpace ==>
        live == old(live) && nodes == old(nodes) && chain == [] && bitmap.bits == old(bitmap.bits)
      ensures st == Ok ==> node !in old(nodes) && live == old(live) + {node} && old(nodes) <= nodes
      ensures st == Ok ==> |bitmap.bits| == |old(bitmap.bits)|
      ensures st == Ok ==> forall x: Lba | x < |bitmap.bits| && bitmap.bits[x] && !old(bitmap.bits)[x] :: Taken(x)
      ensures st == Ok ==> forall a, x | a in old(live) && InNode(x, a, bpn) :: !InNode(x, node, bpn)
    {
      hide NodesOk, Linked, NoFit, FreeRun, NodeOk, Apart, Place, Clump, ClumpChain, Halved, NoneLarger, NotFound;
      ghost var bits0 := bitmap.bits;
      var n;
      st, node, n, k := ClumpOf(clump, padding);
      if st != Ok {
        return;
      }
      ClumpJoins(nodes, bits0, bitmap.bits, bitmap.total, node, bpn, n);
      ClumpSplit(node, bpn, n);
      NewApart(nodes, live, node, bpn, n, bitmap.bits, bitmap.total);
      PlaceNext(node, bpn, 0);
      NoChain(link, node, bpn, n);
      if n > 1 {
        LinkClump(node, n);
        freeNode := node + bpn;
        freeNodes := freeNodes + (n - 1);
      }
      nodes := nodes + Clump(node, bpn, n);
      live := live + {node};
      chain := ClumpChain(node, bpn, 1, n);
      ClumpChainMember(node, bpn, 1, n);
      forall x: Lba | x < |bitmap.bits| && bitmap.bits[x] && !bits0[x] ensures Taken(x) {
        var i := ClumpFills(node, bpn, n, x);
        ClumpMember(node, bpn, n, Place(node, bpn, i));
      }
    }

    /** A clump as whole nodes. */
    method ClumpOf(clump: nat, padding: seq<bool>) returns (st: Status, start: Lba, n: nat, ghost k: nat)
      requires Valid() && clump > 0 && |bitmap.bits| + |padding| == 64 * ((bitmap.total + 63) / 64)
      modifies bitmap`bits, bitmap`nextFree
      ensures bitmap.Valid() && |bitmap.bits| == |old(bitmap.bits)| && st != Inval && n > 0
      ensures n == Halved(clump, k) && NoneLarger(old(bitmap.bits), old(bitmap.nextFree), bitmap.total, clump, bpn, k)
      ensures st == NoSpace ==> NotFound(bitmap.bits, bitmap.nextFree, bitmap.total, bpn)
      ensures st == NoSpace ==> bitmap.bits == old(bitmap.bits)
      ensures st == Ok ==> 0 < start < Place(start, bpn, n) <= bitmap.total
      ensures st == Ok ==> FreeRun(old(bitmap.bits), start, Place(start, bpn, n) - start) && bitmap.bits[0]
      ensures st == Ok ==> forall x | 0 <= x < |bitmap.bits| ::
        bitmap.bits[x] == (old(bitmap.bits)[x] || start <= x < Place(start, bpn, n))
    {
      hide NodesOk, Linked, NoFit, FreeRun, NodeOk, Apart, Halved, NoneLarger, NotFound;
      ghost var bits0 := bitmap.bits;
      var blocks;
      ghost var m;
      st, start, blocks, m, k := FindClump(clump, padding);
      DivModUnique(blocks, bpn, m, 0);
      MoreThanOne(m, bpn);
      n := blocks / bpn;
      if st == Ok {
        FirstBlockFree(bits0, start, blocks);
        PlaceIs(start, bpn, n);
      }
    }

    /** The search for a clump: of the wanted size, then of half the nodes, and so on down to one; every larger
        size on the way had no room. */
    method FindClump(clump: nat, padding: seq<bool>)
      returns (st: Status, start: Lba, blocks: nat, ghost n: nat, ghost k: nat)
      requires Valid() && clump > 0 && |bitmap.bits| + |padding| == 64 * ((bitmap.total + 63) / 64)
      modifies bitmap`bits, bitmap`nextFree
      ensures bitmap.Valid() && |bitmap.bits| == |old(bitmap.bits)| && st != Inval
      ensures st == NoSpace ==> bitmap.bits == old(bitmap.bits)
      ensures n == Halved(clump, k) && NoneLarger(old(bitmap.bits), old(bitmap.nextFree), bitmap.total, clump, bpn, k)
      ensures st == NoSpace ==>
        bitmap.nextFree == old(bitmap.nextFree) && NotFound(bitmap.bits, bitmap.nextFree, bitmap.total, bpn)
      ensures n > 0 && blocks == n * bpn
      ensures st == Ok ==> start + blocks <= bitmap.total && FreeRun(old(bitmap.bits), start, blocks)
      ensures st == Ok ==> forall x | 0 <= x < |bitmap.bits| ::
        bitmap.bits[x] == (old(bitmap.bits)[x] || start <= x < start + blocks)
    {
      hide NodesOk, Linked, NoFit, FreeRun, Halved, NoneLarger;
      n, blocks, k := clump, clump * bpn, 0;
      MoreThanOne(n, bpn);
      FirstSize(bitmap.bits, bitmap.nextFree, bitmap.total, clump, bpn);
      while blocks > bpn
        invariant n > 0 && blocks == n * bpn && (blocks > bpn <==> n > 1)
        invariant bitmap.Valid() && bitmap.bits == old(bitmap.bits) && bitmap.nextFree == old(bitmap.nextFree)
        invariant n == Halved(clump, k) && NoneLarger(bitmap.bits, bitmap.nextFree, bitmap.total, clump, bpn, k)
        decreases n
      {
        st, start := bitmap.AllocBlocks(blocks, padding);
        if st == Ok {
          return;
        }
        HalvedBlocks(n, bpn);
        MoreThanOne(n / 2, bpn);
        NextSize(bitmap.bits, bitmap.nextFree, bitmap.total, clump, bpn, k);
        n, k := n / 2, k + 1;
        blocks := blocks / 2;
        blocks := (blocks / bpn) * bpn;
        if blocks < bpn {
          blocks := bpn;
        }
      }
      st, start := bitmap.AllocBlocks(bpn, padding);
    }

    /** Chains nodes 1 to n - 1 of a clump, the last one first. */
    method LinkClump(start: Lba, n: nat)
      requires bpn > 0 && n > 1 && start > 0 && Place(start, bpn, n) <= |link|
      modifies this`link
      ensures |link| == |old(link)| && Linked(link, Place(start, bpn, 1), ClumpChain(start, bpn, 1, n))
    {
      var i := n - 1;
      NoChain(link, start, bpn, n);
      hide Linked, Place, ClumpChain;
      while i >= 1
        invariant 0 <= i < n && |link| == |old(link)|
        invariant Linked(link, if i + 1 < n then Place(start, bpn, i + 1) else 0, ClumpChain(start, bpn, i + 1, n))
      {
        var this_ := Place(start, bpn, i);
        var next := if i == n - 1 then 0 else Place(start, bpn, i + 1);
        PlaceOrder(start, bpn, i, n);
        ghost var link0 := link;
        link := link[this_ := next];
        ChainGrows(link0, link, start, bpn, i, n);
        i := i - 1;
      }
    }

    /** obmafs3_btree_free_node: a live node goes to the head of the chain; addresses that cannot be nodes
        are ignored. */
    method FreeNode(node: Lba)
      requires Valid() && (node in live || node == 0 || node >= bitmap.total)
      modifies this`link, this`freeNode, this`freeNodes, this`live, this`chain
      ensures Valid()
      ensures 0 < node < bitmap.total ==> live == old(live) - {node} && chain == [node] + old(chain)
      ensures node == 0 || node >= bitmap.total ==> live == old(live) && chain == old(chain) && link == old(link)
    {
      if node == 0 || node >= bitmap.total {
        return;
      }
      hide NodesOk;
      PushChain(live, chain, node);
      assert node !in Elements(chain);
      ghost var link0 := link;
      link := link[node := freeNode];
      LinkedFrame(link0, link, freeNode, chain);
      freeNode := node;
      freeNodes := freeNodes + 1;
      live := live - {node};
      chain := [node] + chain;
      assert chain[1..] == old(chain);
    }

    /** Blocks ever taken from the bitmap are exactly the blocks of live and chained nodes. */
    ghost predicate Taken(x: Lba)
      reads this
    {
      exists a :: a in nodes && InNode(x, a, bpn)
    }

    /** Node a is live or free but not both, and the only node that holds block x. */
    ghost predicate OwnsAlone(x: Lba, a: Lba)
      reads this
    {
      && a in nodes && InNode(x, a, bpn) && (a in live <==> a !in chain)
      && forall b | b in nodes && InNode(x, b, bpn) :: b == a
    }

    /** Each taken block belongs to exactly one node, which is live or free but not both. */
    lemma {:induction false} Partition(x: Lba)
      requires Valid() && Taken(x)
      ensures x < bitmap.total && bitmap.bits[x]
      ensures exists a :: OwnsAlone(x, a)
    {
      var a :| a in nodes && InNode(x, a, bpn);
      assert NodeOk(a, bpn, bitmap.bits, bitmap.total);
      assert a in live + Elements(chain);
      assert a in chain <==> a in Elements(chain);
      assert OwnsAlone(x, a);
    }
  }

  lemma {:induction false} HalvedBlocks(n: nat, bpn: nat)
    requires bpn > 0
    ensures (n * bpn / 2) / bpn == n / 2
  {
    var h, r := n / 2, if n % 2 == 0 then 0 else bpn;
    var p := h * bpn;
    Doubled(n, h, bpn);
    HalfSum(p, r);
    DivModUnique(p + r / 2, bpn, h, r / 2);
  }

  lemma {:induction false} Doubled(n: nat, h: nat, bpn: nat)
    requires n == 2 * h || n == 2 * h + 1
    ensures n * bpn == 2 * (h * bpn) + (if n == 2 * h then 0 else bpn)
  {
    if n == 2 * h {
      assert (h + h) * bpn == h * bpn + h * bpn;
    } else {
      assert (h + h + 1) * bpn == h * bpn + h * bpn + bpn;
    }
  }

  lemma {:induction false} HalfSum(p: nat, r: nat)
    ensures (2 * p + r) / 2 == p + r / 2
  {
  }

  lemma {:induction false} MoreThanOne(n: nat, bpn: nat)
    requires bpn > 0
    ensures n * bpn > bpn <==> n > 1
    ensures n > 0 ==> n * bpn >= bpn
  {
    if n > 1 {
      MulAtLeast(n - 1, bpn);
      assert n * bpn == bpn + (n - 1) * bpn;
    }
  }

  lemma {:induction false} FirstBlockFree(bits: seq<bool>, start: Lba, n: nat)
    requires n > 0 && FreeRun(bits, start, n)
    ensures start < |bits| && !bits[start]
  {
  }

  lemma {:induction false} PlaceIs(start: Lba, bpn: nat, n: nat)
    ensures Place(start, bpn, n) == start + n * bpn
  {
  }

  /** The first node of the clump shares no block with any node made before. */
  lemma {:induction false} NewApart(nodes: set<Lba>, live: set<Lba>, start: Lba, bpn: nat, n: nat, bits: seq<bool>,
                                    total: nat)
    requires n > 0 && live <= nodes && NodesOk(nodes + Clump(start, bpn, n), bpn, bits, total)
    requires nodes !! Clump(start, bpn, n)
    requires start in Clump(start, bpn, n)
    ensures forall a, x | a in live && InNode(x, a, bpn) :: !InNode(x, start, bpn)
  {
    forall a, x | a in live && InNode(x, a, bpn) ensures !InNode(x, start, bpn) {
      assert a in nodes + Clump(start, bpn, n) && start in nodes + Clump(start, bpn, n);
    }
  }

  lemma {:induction false} PushChain(live: set<Lba>, chain: seq<Lba>, node: Lba)
    requires node in live && NoRepeats(chain) && live !! Elements(chain)
    ensures var longer := [node] + chain;
      NoRepeats(longer) && live - {node} !! Elements(longer)
        && (live - {node}) + Elements(longer) == live + Elements(chain)
  {
    forall i | 0 <= i < |chain| ensures chain[i] != node {
      assert chain[i] in Elements(chain);
    }
  }

  lemma {:induction false} EmptyChain(link: seq<Lba>, head: Lba, chain: seq<Lba>)
    requires Linked(link, head, chain) && (head == 0 || |chain| == 0)
    ensures chain == [] && head == 0
  {
  }

  lemma {:induction false} PopChain(live: set<Lba>, chain: seq<Lba>)
    requires chain != [] && NoRepeats(chain) && live !! Elements(chain)
    ensures var rest := chain[1..];
      NoRepeats(rest) && live + {chain[0]} !! Elements(rest)
        && (live + {chain[0]}) + Elements(rest) == live + Elements(chain)
  {
    var rest := chain[1..];
    assert chain == [chain[0]] + rest;
    forall i | 0 <= i < |rest| ensures rest[i] != chain[0] {
      assert rest[i] == chain[i + 1];
    }
  }
}
