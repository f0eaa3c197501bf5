/** Walking B+Trees and free-node chains on a volume whose pointers may be arbitrary. */
module TreeWalk {
  import opened Blocks
  import opened SmallSets

  type Lba = nat

  datatype BlockType = Free | Used | Tree | Dedup | Meta

  // ----- reachability

  /** Block x exists, is not block 0 and had not been found to be a tree block before the walk. */
  ghost predicate Fresh(types: seq<BlockType>, x: Lba) {
    0 < x < |types| && types[x] != Tree
  }

  /** A path of fresh blocks from the root, along child pointers. */
  ghost predicate Path(types: seq<BlockType>, kids: seq<seq<Lba>>, root: Lba, path: seq<Lba>)
    requires |kids| == |types|
  {
    && path != [] && path[0] == root
    && (forall i | 0 <= i < |path| :: Fresh(types, path[i]))
    && (forall i | 0 <= i < |path| - 1 :: StepAt(kids, path, i))
  }

  ghost predicate StepAt(kids: seq<seq<Lba>>, path: seq<Lba>, i: nat) {
    i + 1 < |path| && path[i] < |kids| && path[i + 1] in kids[path[i]]
  }

  ghost predicate Reachable(types: seq<BlockType>, kids: seq<seq<Lba>>, root: Lba, x: Lba)
    requires |kids| == |types|
  {
    exists path :: Path(types, kids, root, path) && path[|path| - 1] == x
  }

  lemma {:induction false} RootReachable(types: seq<BlockType>, kids: seq<seq<Lba>>, root: Lba)
    requires |kids| == |types| && Fresh(types, root)
    ensures Reachable(types, kids, root, root)
  {
    assert Path(types, kids, root, [root]);
  }

  lemma {:induction false} KidReachable(types: seq<BlockType>, kids: seq<seq<Lba>>, root: Lba, x: Lba, y: Lba)
    requires |kids| == |types| && Reachable(types, kids, root, x) && Fresh(types, x) && y in kids[x] && Fresh(types, y)
    ensures Reachable(types, kids, root, y)
  {
    var path :| Path(types, kids, root, path) && path[|path| - 1] == x;
    var longer := path + [y];
    forall i | 0 <= i < |longer| - 1 ensures StepAt(kids, longer, i) {
      assert i < |path| - 1 ==> StepAt(kids, path, i);
    }
    assert Path(types, kids, root, longer);
  }

  /** A set that holds the root and is closed under fresh children holds everything reachable. */
  lemma {:induction false} ClosedHolds(types: seq<BlockType>, kids: seq<seq<Lba>>, root: Lba, path: seq<Lba>,
                                       s: set<Lba>)
    requires |kids| == |types| && Path(types, kids, root, path) && root in s
    requires forall x, y | x in s && x < |kids| && y in kids[x] && Fresh(types, y) :: y in s
    ensures path[|path| - 1] in s
    decreases |path|
  {
    if |path| > 1 {
      var shorter := path[..|path| - 1];
      forall i | 0 <= i < |shorter| - 1 ensures StepAt(kids, shorter, i) {
        assert StepAt(kids, path, i);
      }
      ClosedHolds(types, kids, root, shorter, s);
      assert StepAt(kids, path, |path| - 2);
    }
  }

  // ----- the walk

  /** What is known while walking: the new tree blocks are reachable, everything pending is reachable or
      will be skipped, and children of new tree blocks are new tree blocks or pending. */
  ghost predicate Walking(types0: seq<BlockType>, types: seq<BlockType>, kids: seq<seq<Lba>>, root: Lba,
                          found: set<Lba>, pending: seq<Lba>) {
    && |types0| == |types| == |kids|
    && (forall x | 0 <= x < |types| :: types[x] == if x in found then Tree else types0[x])
    && (forall x | x in found :: Fresh(types0, x) && Reachable(types0, kids, root, x))
    && (forall x | x in pending && Fresh(types0, x) :: Reachable(types0, kids, root, x))
    && (forall x, y | x in found && x < |kids| && y in kids[x] && Fresh(types0, y) :: y in found || y in pending)
    && (Fresh(types0, root) ==> root in found || root in pending)
  }

  /** A pending block that is null, out of range or already a tree block is dropped. */
  lemma {:induction false} DropPending(types0: seq<BlockType>, types: seq<BlockType>, kids: seq<seq<Lba>>, root: Lba,
                                       found: set<Lba>, x: Lba, rest: seq<Lba>)
    requires Walking(types0, types, kids, root, found, [x] + rest) && (x == 0 || x >= |types| || types[x] == Tree)
    ensures Walking(types0, types, kids, root, found, rest)
  {
    assert forall y | y in rest :: y in [x] + rest;
    assert Fresh(types0, x) ==> x in found;
  }

  /** A pending block becomes a tree block; its children become pending. */
  lemma {:induction false} TakePending(types0: seq<BlockType>, types: seq<BlockType>, kids: seq<seq<Lba>>, root: Lba,
                                       found: set<Lba>, x: Lba, rest: seq<Lba>, next: seq<Lba>)
    requires Walking(types0, types, kids, root, found, [x] + rest) && 0 < x < |types| && types[x] != Tree
    requires forall y | 0 < y < |types| :: y in next <==> y in rest || y in kids[x]
    ensures x !in found && Walking(types0, types[x := Tree], kids, root, found + {x}, next)
  {
    assert x in [x] + rest;
    assert Fresh(types0, x);
    forall y | y in next && Fresh(types0, y) ensures Reachable(types0, kids, root, y) {
      if y in kids[x] {
        KidReachable(types0, kids, root, x, y);
      } else {
        assert y in [x] + rest;
      }
    }
  }

  /** With nothing pending, exactly the reachable blocks were found. */
  lemma {:induction false} WalkDone(types0: seq<BlockType>, types: seq<BlockType>, kids: seq<seq<Lba>>, root: Lba,
                                    found: set<Lba>)
    requires Walking(types0, types, kids, root, found, [])
    ensures forall x :: x in found <==> Reachable(types0, kids, root, x)
  {
    forall x ensures x in found <==> Reachable(types0, kids, root, x) {
      if Reachable(types0, kids, root, x) {
        var path :| Path(types0, kids, root, path) && path[|path| - 1] == x;
        ClosedHolds(types0, kids, root, path, found);
      }
    }
  }

  lemma {:induction false} SamePending(types0: seq<BlockType>, types: seq<BlockType>, kids: seq<seq<Lba>>, root: Lba,
                                       found: set<Lba>, a: seq<Lba>, b: seq<Lba>)
    requires Walking(types0, types, kids, root, found, a) && forall x :: x in a <==> x in b
    ensures Walking(types0, types, kids, root, found, b)
  {
  }

  /** The level sorted for sequential reading. */
  method SortLevel(level: seq<Lba>) returns (sorted: seq<Lba>)
    ensures multiset(sorted) == multiset(level) && Ascending(sorted)
  {
    sorted := [];
    var i := 0;
    while i < |level|
      invariant 0 <= i <= |level| && multiset(sorted) == multiset(level[..i]) && Ascending(sorted)
    {
      assert level[..i + 1] == level[..i] + [level[i]];
      sorted := InsertSorted(sorted, level[i]);
      i := i + 1;
    }
    assert level[..i] == level;
  }

  ghost predicate Ascending(s: seq<Lba>) {
    forall i, j | 0 <= i < j < |s| :: s[i] <= s[j]
  }

  lemma {:induction false} Inserted(s: seq<Lba>, x: Lba, k: nat)
    requires Ascending(s) && k <= |s| && (forall a | 0 <= a < k :: s[a] <= x) && (k < |s| ==> x < s[k])
    ensures Ascending(s[..k] + [x] + s[k..]) && multiset(s[..k] + [x] + s[k..]) == multiset(s) + multiset{x}
  {
    InsertedBag(s[..k], x, s[k..]);
    assert s == s[..k] + s[k..];
    var t := s[..k] + [x] + s[k..];
    forall i, j | 0 <= i < j < |t| ensures t[i] <= t[j] {
      assert t[i] == (if i < k then s[i] else if i == k then x else s[i - 1]);
      assert t[j] == (if j < k then s[j] else if j == k then x else s[j - 1]);
    }
  }

  lemma {:induction false} InsertedBag(a: seq<Lba>, x: Lba, b: seq<Lba>)
    ensures multiset(a + [x] + b) == multiset(a + b) + multiset{x}
  {
  }

  method InsertSorted(s: seq<Lba>, x: Lba) returns (s': seq<Lba>)
    requires Ascending(s)
    ensures Ascending(s') && multiset(s') == multiset(s) + multiset{x}
  {
    var k := 0;
    while k < |s| && s[k] <= x
      invariant 0 <= k <= |s| && forall a | 0 <= a < k :: s[a] <= x
    {
      k := k + 1;
    }
    s' := s[..k] + [x] + s[k..];
    Inserted(s, x, k);
  }

  lemma {:induction false} SortedSame(a: seq<Lba>, b: seq<Lba>)
    requires multiset(a) == multiset(b)
    ensures forall x :: x in a <==> x in b
  {
    forall x ensures x in a <==> x in b {
      assert x in a <==> x in multiset(a);
      assert x in b <==> x in multiset(b);
    }
  }

  /** Children that exist and are not null join the next level. */
  method AddKids(next: seq<Lba>, kids: seq<Lba>, total: nat) returns (next': seq<Lba>)
    ensures forall y :: y in next' <==> y in next || (y in kids && 0 < y < total)
  {
    next' := next;
    var i := 0;
    while i < |kids|
      invariant 0 <= i <= |kids|
      invariant forall y :: y in next' <==> y in next || (y in kids[..i] && 0 < y < total)
    {
      assert kids[..i + 1] == kids[..i] + [kids[i]];
      if kids[i] != 0 && kids[i] < total {
        next' := next' + [kids[i]];
      }
      i := i + 1;
    }
    assert kids[..i] == kids;
  }

  /** walk_tree, on child pointers as read from the blocks (none for a block that is unreadable, not a
      node, or a leaf): terminates whatever the pointers are, newly marks exactly the blocks reachable from
      the root through fresh blocks, and returns their number. */
  method WalkTree(types: array<BlockType>, kids: seq<seq<Lba>>, root: Lba) returns (count: nat, ghost found: set<Lba>)
    requires |kids| == types.Length
    modifies types
    ensures forall x :: x in found <==> Reachable(old(types[..]), kids, root, x)
    ensures forall x | 0 <= x < types.Length :: types[x] == if x in found then Tree else old(types[x])
    ensures count == |found|
  {
    ghost var types0 := types[..];
    count, found := 0, {};
    var cur := [root];
    if root == 0 {
      cur := [];
    }
    StartWalk(types0, kids, root, cur);
    while cur != []
      invariant Walking(types0, types[..], kids, root, found, cur) && count == |found|
      decreases types.Length - |found|, |cur|
    {
      ghost var found0, cur0 := found, cur;
      cur := SortLevel(cur);
      SortedSame(cur, cur0);
      SamePending(types0, types[..], kids, root, found, cur0, cur);
      cur, count, found := WalkLevel(types, kids, root, cur, count, types0, found);
      Grew(found0, found);
    }
    WalkDone(types0, types[..], kids, root, found);
  }

  /** Takes the blocks of one level and collects their children. */
  method WalkLevel(types: array<BlockType>, kids: seq<seq<Lba>>, root: Lba, cur: seq<Lba>, count0: nat,
                   ghost types0: seq<BlockType>, ghost found0: set<Lba>)
    returns (next: seq<Lba>, count: nat, ghost found: set<Lba>)
    requires Walking(types0, types[..], kids, root, found0, cur) && count0 == |found0|
    modifies types
    ensures Walking(types0, types[..], kids, root, found, next) && count == |found| <= types.Length
    ensures found0 <= found && (found == found0 ==> next == [])
  {
    hide Walking;
    next, count, found := [], count0, found0;
    WalkSizes(types0, types[..], kids, root, found, cur);
    var ci := 0;
    assert cur[0..] + next == cur;
    while ci < |cur|
      invariant 0 <= ci <= |cur| && Walking(types0, types[..], kids, root, found, cur[ci..] + next) && count == |found|
      invariant found0 <= found && (found == found0 ==> next == [])
    {
      var x := cur[ci];
      ghost var rest := cur[ci + 1..] + next;
      assert cur[ci..] + next == [x] + rest;
      ci := ci + 1;
      if x == 0 || x >= types.Length || types[x] == Tree {
        DropPending(types0, types[..], kids, root, found, x, rest);
      } else {
        ghost var before := types[..];
        types[x] := Tree;
        count := count + 1;
        next := AddKids(next, kids[x], types.Length);
        assert types[..] == before[x := Tree];
        TakePending(types0, before, kids, root, found, x, rest, cur[ci..] + next);
        found := found + {x};
      }
    }
    assert cur[ci..] + next == next;
    WalkSizes(types0, types[..], kids, root, found, next);
  }

  lemma {:induction false} WalkSizes(types0: seq<BlockType>, types: seq<BlockType>, kids: seq<seq<Lba>>, root: Lba,
                                     found: set<Lba>,
                                     pending: seq<Lba>)
    requires Walking(types0, types, kids, root, found, pending)
    ensures |types0| == |types| == |kids| && |found| <= |types|
  {
    BoundedSize(found, |types|);
  }

  lemma {:induction false} StartWalk(types: seq<BlockType>, kids: seq<seq<Lba>>, root: Lba, cur: seq<Lba>)
    requires |kids| == |types| && cur == if root == 0 then [] else [root]
    ensures Walking(types, types, kids, root, {}, cur)
  {
    if Fresh(types, root) {
      RootReachable(types, kids, root);
    }
  }

  lemma {:induction false} Grew(a: set<nat>, b: set<nat>)
    requires a <= b
    ensures a == b || |a| < |b|
  {
    if x :| x in b && x !in a {
      SubsetSize(a, b - {x});
    }
  }

  // ----- free chains

  /** The chain from `start`: block by block along the links, each new, until it ends. */
  ghost predicate Chain(types: seq<BlockType>, links: seq<Option<Lba>>, start: Lba, chain: seq<Lba>)
    requires |links| == |types|
  {
    && (forall i | 0 <= i < |chain| :: Fresh(types, chain[i]))
    && (forall i, j | 0 <= i < j < |chain| :: chain[i] != chain[j])
    && (chain != [] ==> chain[0] == start)
    && (forall i | 0 <= i < |chain| - 1 :: LinkAt(links, chain, i))
  }

  ghost predicate LinkAt(links: seq<Option<Lba>>, chain: seq<Lba>, i: nat) {
    i + 1 < |chain| && chain[i] < |links| && links[chain[i]] == Some(chain[i + 1])
  }

  /** What follows the chain: its first block if it is empty, else the link of its last block. */
  function Onward(links: seq<Option<Lba>>, start: Lba, chain: seq<Lba>): Option<Lba>
    requires chain != [] ==> chain[|chain| - 1] < |links|
  {
    if chain == [] then Some(start) else links[chain[|chain| - 1]]
  }

  /** The chain stops only where it has to: at an unreadable block, a null or out-of-range link, a block
      marked before, or the first repeat. */
  ghost predicate Ended(types: seq<BlockType>, chain: seq<Lba>, onward: Option<Lba>) {
    onward.None? || !Fresh(types, onward.value) || onward.value in chain
  }

  /** walk_free_chain: marks the blocks of the chain, however it continues, and returns their number. */
  method WalkFreeChain(types: array<BlockType>, links: seq<Option<Lba>>, start: Lba)
    returns (count: nat, ghost chain: seq<Lba>)
    requires |links| == types.Length
    modifies types
    ensures Chain(old(types[..]), links, start, chain) && count == |chain|
    ensures Ended(old(types[..]), chain, Onward(links, start, chain))
    ensures forall x | 0 <= x < types.Length :: types[x] == if x in chain then Tree else old(types[x])
  {
    ghost var types0 := types[..];
    count, chain := 0, [];
    var lba := start;
    while lba != 0 && lba < types.Length
      invariant Chain(types0, links, start, chain) && count == |chain|
      invariant Onward(links, start, chain) == Some(lba)
      invariant forall x | 0 <= x < types.Length :: types[x] == if x in chain then Tree else types0[x]
      decreases types.Length - count
    {
      if types[lba] == Tree {
        break;
      }
      types[lba] := Tree;
      count := count + 1;
      LongerChain(types0, links, start, chain, lba);
      chain := chain + [lba];
      ChainBound(types0, links, start, chain);
      var next := links[lba];
      if next.None? {
        break;
      }
      lba := next.value;
      if count > types.Length {
        break;
      }
    }
  }

  lemma {:induction false} LongerChain(types: seq<BlockType>, links: seq<Option<Lba>>, start: Lba, chain: seq<Lba>,
                                       x: Lba)
    requires |links| == |types| && Chain(types, links, start, chain) && Onward(links, start, chain) == Some(x)
    requires Fresh(types, x) && x !in chain
    ensures Chain(types, links, start, chain + [x])
  {
    var longer := chain + [x];
    forall i | 0 <= i < |longer| - 1 ensures LinkAt(links, longer, i) {
      assert i < |chain| - 1 ==> LinkAt(links, chain, i);
    }
  }

  lemma {:induction false} ChainBound(types: seq<BlockType>, links: seq<Option<Lba>>, start: Lba, chain: seq<Lba>)
    requires |links| == |types| && Chain(types, links, start, chain)
    ensures |chain| <= |types|
  {
    MembersOf(chain);
    BoundedSize(Members(chain), |types|);
  }

  ghost function Members(s: seq<Lba>): set<Lba> {
    if s == [] then {} else Members(s[1..]) + {s[0]}
  }

  lemma {:induction false} InMembers(s: seq<Lba>, x: Lba)
    ensures x in Members(s) <==> x in s
  {
    if s != [] {
      InMembers(s[1..], x);
      assert s == [s[0]] + s[1..];
    }
  }

  lemma {:induction false} MembersOf(s: seq<Lba>)
    requires forall i, j | 0 <= i < j < |s| :: s[i] != s[j]
    ensures |Members(s)| == |s| && forall x :: x in Members(s) <==> x in s
  {
    if s != [] {
      var rest := s[1..];
      assert forall i {:trigger rest[i]} | 0 <= i < |rest| :: rest[i] == s[i + 1];
      MembersOf(rest);
      assert s[0] !in rest;
    }
    hide Members;
    forall x ensures x in Members(s) <==> x in s {
      InMembers(s, x);
    }
  }

  // ----- collecting the nodes of a tree

  /** The children of the nodes, in order; null pointers are skipped. */
  function Kids(kids: Lba -> seq<Lba>, nodes: seq<Lba>): seq<Lba> {
    if nodes == [] then [] else Kids(kids, nodes[..|nodes| - 1]) + Real(kids(nodes[|nodes| - 1]))
  }

  function Real(xs: seq<Lba>): seq<Lba> {
    if xs == [] then [] else Real(xs[..|xs| - 1]) + (if xs[|xs| - 1] == 0 then [] else [xs[|xs| - 1]])
  }

  /** A finite tree in breadth-first order: the root, then every node's children, each after its parent. */
  ghost predicate BreadthFirst(kids: Lba -> seq<Lba>, root: Lba, nodes: seq<Lba>) {
    && nodes == [root] + Kids(kids, nodes) && 0 !in nodes
    && forall k {:trigger nodes[..k]} | 0 < k < |nodes| :: |Kids(kids, nodes[..k])| >= k
  }

  lemma {:induction false} KidsPrefix(kids: Lba -> seq<Lba>, nodes: seq<Lba>, k: nat)
    requires k <= |nodes|
    ensures |Kids(kids, nodes[..k])| <= |Kids(kids, nodes)|
    ensures Kids(kids, nodes)[..|Kids(kids, nodes[..k])|] == Kids(kids, nodes[..k])
  {
    if k == |nodes| {
      assert nodes[..k] == nodes;
    } else {
      var shorter := nodes[..|nodes| - 1];
      KidsPrefix(kids, shorter, k);
      assert shorter[..k] == nodes[..k];
    }
  }

  /** The free-node chain, to its null link. */
  ghost predicate FreeChain(link: Lba -> Lba, start: Lba, chain: seq<Lba>)
    decreases |chain|
  {
    if chain == [] then start == 0 else start != 0 && chain[0] == start && FreeChain(link, link(start), chain[1..])
  }

  /** collect_tree_nodes: the nodes of a finite tree in breadth-first order, then the free chain. A tree
      without a root has no nodes to move. */
  method CollectNodes(kids: Lba -> seq<Lba>, link: Lba -> Lba, root: Lba, free: Lba, ghost nodes: seq<Lba>,
                      ghost chain: seq<Lba>)
    returns (lbas: seq<Lba>)
    requires root != 0 ==> BreadthFirst(kids, root, nodes) && FreeChain(link, free, chain)
    ensures lbas == if root == 0 then [] else nodes + chain
  {
    lbas := [];
    if root == 0 {
      return;
    }
    lbas := BreadthFirstNodes(kids, root, nodes);
    var f := free;
    ghost var rest := chain;
    while f != 0
      invariant FreeChain(link, f, rest) && lbas + rest == nodes + chain
      decreases |rest|
    {
      assert lbas + rest == (lbas + [f]) + rest[1..];
      lbas := lbas + [f];
      f := link(f);
      rest := rest[1..];
    }
  }

  method BreadthFirstNodes(kids: Lba -> seq<Lba>, root: Lba, ghost nodes: seq<Lba>) returns (lbas: seq<Lba>)
    requires BreadthFirst(kids, root, nodes)
    ensures lbas == nodes
  {
    hide BreadthFirst, Kids, Real;
    var queue := [root];
    var head := 0;
    NoKids(kids, nodes);
    while head < |queue|
      invariant 0 <= head <= |queue| && head <= |nodes|
      invariant queue[..head] == nodes[..head] && queue == [root] + Kids(kids, nodes[..head])
      decreases |nodes| - head
    {
      QueueAhead(kids, root, nodes, head);
      KidsNext(kids, nodes, head);
      assert queue[..head + 1] == nodes[..head + 1];
      var more := NonNull(kids(queue[head]));
      QueueGrows(queue, more, head + 1);
      Assoc3([root], Kids(kids, nodes[..head]), more);
      queue := queue + more;
      head := head + 1;
    }
    QueueEnd(kids, root, nodes, head);
    assert queue[..head] == queue && nodes[..head] == nodes;
    lbas := queue;
  }

  lemma {:induction false} Assoc3(a: seq<Lba>, b: seq<Lba>, c: seq<Lba>)
    ensures (a + b) + c == a + (b + c)
  {
  }

  lemma {:induction false} QueueGrows(queue: seq<Lba>, more: seq<Lba>, head: nat)
    requires head <= |queue|
    ensures (queue + more)[..head] == queue[..head]
  {
  }

  lemma {:induction false} NoKids(kids: Lba -> seq<Lba>, nodes: seq<Lba>)
    ensures Kids(kids, nodes[..0]) == []
  {
  }

  lemma {:induction false} KidsNext(kids: Lba -> seq<Lba>, nodes: seq<Lba>, k: nat)
    requires k < |nodes|
    ensures Kids(kids, nodes[..k + 1]) == Kids(kids, nodes[..k]) + Real(kids(nodes[k]))
  {
    assert nodes[..k + 1][..k] == nodes[..k];
  }

  lemma {:induction false} QueueEnd(kids: Lba -> seq<Lba>, root: Lba, nodes: seq<Lba>, head: nat)
    requires BreadthFirst(kids, root, nodes) && head <= |nodes| && head == |[root] + Kids(kids, nodes[..head])|
    ensures head == |nodes|
  {
  }

  method NonNull(xs: seq<Lba>) returns (r: seq<Lba>)
    ensures r == Real(xs)
  {
    r := [];
    var i := 0;
    while i < |xs|
      invariant 0 <= i <= |xs| && r == Real(xs[..i])
    {
      assert xs[..i + 1][..i] == xs[..i];
      if xs[i] != 0 {
        r := r + [xs[i]];
      }
      i := i + 1;
    }
    assert xs[..i] == xs;
  }

  /** The queue is a part of the order. */
  lemma {:induction false} QueueAhead(kids: Lba -> seq<Lba>, root: Lba, nodes: seq<Lba>, head: nat)
    requires BreadthFirst(kids, root, nodes) && head <= |nodes| && head < |[root] + Kids(kids, nodes[..head])|
    ensures head < |nodes| && nodes[head] == ([root] + Kids(kids, nodes[..head]))[head]
  {
    KidsPrefix(kids, nodes, head);
    var k := Kids(kids, nodes[..head]);
    assert |nodes| == 1 + |Kids(kids, nodes)|;
    if head > 0 {
      assert Kids(kids, nodes)[..|k|][head - 1] == k[head - 1];
    }
  }
}
