/** relocate_tree as it works on the volume: read all nodes, rewrite their pointers in memory, write them
    to their places, then update header and bitmap. */
module TreeMover {
  import opened Blocks
  import opened RelocMap
  import opened Relocation

  /** One entry per node. */
  lemma {:induction false} MovesTable(lbas: seq<Lba>, dst: Lba, bpn: nat)
    ensures |Moves(lbas, dst, bpn)| == |lbas|
  {
  }

  lemma {:induction false} StoredStep(dev: seq<Chunk>, dev': seq<Chunk>, dst: Lba, bpn: nat, nodes: seq<Node>, i: nat,
                                      k: nat)
    requires i < k < |nodes| && StoredAtPlace(dev, dst, bpn, nodes, i) && |dev| == |dev'|
    requires forall x | 0 <= x < |dev| && !InNode(x, Place(dst, bpn, k), bpn) :: dev'[x] == dev[x]
    ensures StoredAtPlace(dev', dst, bpn, nodes, i)
  {
    PlaceOrder(dst, bpn, i, k);
    hide Place;
    var p := Place(dst, bpn, i);
    forall j | 0 <= j < bpn ensures dev'[p + j] == Part(nodes[i], j) {
      assert dev[p + j] == Part(nodes[i], j);
    }
  }

  class Mover {
    var dev: seq<Chunk>
    var used: set<Lba>
    /** The tree header. */
    var root: Lba
    var freeNode: Lba
    /** Recorded node relocations. */
    var moved: seq<Entry>

    /** MAP_LOOKUP on a pointer that is rewritten only when not null. */
    static method MapPointer(t: seq<Slot>, x: Lba, ghost es: seq<Entry>, ghost p: Plan) returns (r: Lba)
      requires TableOk(t, es, p)
      ensures r == Mapped(x, es)
    {
      r := 0;
      if x != 0 {
        r := Lookup(t, x, x, es, p);
      }
    }

    /** Rewrites the pointers of one node image. */
    static method RewriteNode(n: Node, t: seq<Slot>, indexed: bool, sum: Checksum, ghost es: seq<Entry>, ghost p: Plan)
      returns (n': Node)
      requires TableOk(t, es, p)
      ensures n' == Renamed(n, es, indexed, sum)
    {
      hide TableOk, Mapped;
      if n.Chained? {
        var next := MapPointer(t, n.next, es, p);
        return n.(next := next);
      }
      var left := MapPointer(t, n.left, es, p);
      var right := MapPointer(t, n.right, es, p);
      var kids := n.kids;
      if n.level > 0 && indexed {
        var k := 0;
        while k < |kids|
          invariant 0 <= k <= |kids| == |n.kids|
          invariant forall i | 0 <= i < k :: kids[i] == Mapped(n.kids[i], es)
          invariant forall i | k <= i < |kids| :: kids[i] == n.kids[i]
        {
          var child := MapPointer(t, kids[k], es, p);
          kids := kids[k := child];
          k := k + 1;
        }
        assert kids == MappedAll(n.kids, es);
      }
      n' := n.(left := left, right := right, kids := kids);
      var modified := left != n.left || right != n.right || kids != n.kids;
      if modified {
        n' := n'.(checksum := None);
        n' := n'.(checksum := Some(sum(n')));
      }
    }

    /** Reads all nodes into memory before any is written. */
    method ReadNodes(lbas: seq<Lba>, bpn: nat, ghost nodes: seq<Node>) returns (images: seq<Node>)
      requires bpn > 0 && AllStored(dev, lbas, bpn, nodes)
      ensures images == nodes
    {
      images := [];
      var i := 0;
      while i < |lbas|
        invariant 0 <= i <= |lbas| && images == nodes[..i]
      {
        assert StoredAt(dev, lbas[i], bpn, nodes[i]);
        assert dev[lbas[i] + 0] == Part(nodes[i], 0);
        images := images + [dev[lbas[i]].node];
        i := i + 1;
      }
    }

    static method RewriteAll(nodes: seq<Node>, t: seq<Slot>, indexed: bool, sum: Checksum, ghost es: seq<Entry>,
                             ghost p: Plan)
      returns (images: seq<Node>)
      requires TableOk(t, es, p)
      ensures images == RenamedAll(nodes, es, indexed, sum)
    {
      hide TableOk, Renamed;
      images := nodes;
      var i := 0;
      while i < |nodes|
        invariant 0 <= i <= |nodes| == |images|
        invariant forall j | 0 <= j < i :: images[j] == Renamed(nodes[j], es, indexed, sum)
        invariant forall j | i <= j < |nodes| :: images[j] == nodes[j]
      {
        var n := RewriteNode(images[i], t, indexed, sum, es, p);
        images := images[i := n];
        i := i + 1;
      }
    }

    /** Writes one node image to bpn blocks. */
    method WriteNode(lba: Lba, n: Node, bpn: nat)
      requires lba + bpn <= |dev|
      modifies this`dev
      ensures |dev| == |old(dev)| && StoredAt(dev, lba, bpn, n)
      ensures forall x | 0 <= x < |dev| && !InNode(x, lba, bpn) :: dev[x] == old(dev)[x]
    {
      var k := 0;
      while k < bpn
        invariant 0 <= k <= bpn && |dev| == |old(dev)|
        invariant forall j | 0 <= j < k :: dev[lba + j] == Part(n, j)
        invariant forall x | 0 <= x < |dev| && !InNode(x, lba, bpn) :: dev[x] == old(dev)[x]
      {
        dev := dev[lba + k := Part(n, k)];
        k := k + 1;
      }
    }

    /** Writes all nodes to their places. */
    method WriteNodes(images: seq<Node>, dst: Lba, bpn: nat)
      requires Place(dst, bpn, |images|) <= |dev|
      modifies this`dev
      ensures |dev| == |old(dev)| && forall i | 0 <= i < |images| :: StoredAtPlace(dev, dst, bpn, images, i)
      ensures forall x | 0 <= x < |dev| && !InNew(x, dst, bpn, |images|) :: dev[x] == old(dev)[x]
    {
      hide Place, StoredAt, StoredAtPlace;
      var i, at := 0, dst;
      PlaceNext(dst, bpn, 0);
      while i < |images|
        invariant 0 <= i <= |images| && at == Place(dst, bpn, i) && dst <= at && |dev| == |old(dev)|
        invariant forall j | 0 <= j < i :: StoredAtPlace(dev, dst, bpn, images, j)
        invariant forall x | 0 <= x < |dev| && !InNew(x, dst, bpn, i) :: dev[x] == old(dev)[x]
      {
        ghost var dev0 := dev;
        PlaceOrder(dst, bpn, i, |images|);
        PlaceNext(dst, bpn, i);
        WriteNode(at, images[i], bpn);
        WroteOne(dev, dst, bpn, images, i);
        forall j | 0 <= j < i ensures StoredAtPlace(dev, dst, bpn, images, j) {
          StoredStep(dev0, dev, dst, bpn, images, j, i);
        }
        i, at := i + 1, at + bpn;
      }
    }

    /** obmafs3_bitmap_set and obmafs3_bitmap_clear on a range, as seen by their callers. */
    method SetRange(start: Lba, end: Lba)
      requires start <= end
      modifies this`used
      ensures forall x :: x in used <==> x in old(used) || start <= x < end
    {
      var x := start;
      while x < end
        invariant start <= x <= end && forall y :: y in used <==> y in old(used) || start <= y < x
      {
        used := used + {x};
        x := x + 1;
      }
    }

    method ClearRange(start: Lba, count: nat)
      modifies this`used
      ensures forall x :: x in used <==> x in old(used) && !InNode(x, start, count)
    {
      var k := 0;
      while k < count
        invariant 0 <= k <= count && forall y :: y in used <==> y in old(used) && !InNode(y, start, k)
      {
        used := used - {start + k};
        k := k + 1;
      }
    }

    /** Step 5: marks the new range, then clears the old nodes that start outside it. */
    method UpdateBitmap(lbas: seq<Lba>, dst: Lba, bpn: nat)
      modifies this`used
      ensures forall x :: x in used <==> UsedAfter(x, old(used), lbas, bpn, dst)
    {
      hide Place;
      PlaceAfter(dst, bpn, |lbas|);
      SetRange(dst, Place(dst, bpn, |lbas|));
      var i := 0;
      while i < |lbas|
        invariant 0 <= i <= |lbas|
        invariant forall x ::
          x in used <==> (x in old(used) || InNew(x, dst, bpn, |lbas|)) && !Cleared(x, lbas, bpn, i, dst)
      {
        ghost var used0 := used;
        if !InNew(lbas[i], dst, bpn, |lbas|) {
          ClearRange(lbas[i], bpn);
        }
        forall x ensures Cleared(x, lbas, bpn, i + 1, dst)
          <==> Cleared(x, lbas, bpn, i, dst) || (!InNew(lbas[i], dst, bpn, |lbas|) && InNode(x, lbas[i], bpn))
        {
          ClearedStep(x, lbas, bpn, i, dst);
        }
        i := i + 1;
      }
    }

    /** Records the nodes that changed their address. */
    method RecordMoves(lbas: seq<Lba>, dst: Lba, bpn: nat)
      modifies this`moved
      ensures moved == old(moved) + Records(lbas, dst, bpn, |lbas|)
    {
      var i := 0;
      while i < |lbas|
        invariant 0 <= i <= |lbas| && moved == old(moved) + Records(lbas, dst, bpn, i)
      {
        if lbas[i] != dst + i * bpn {
          moved := moved + [Entry(lbas[i], dst + i * bpn, 0)];
        }
        i := i + 1;
      }
    }

    /** relocate_tree. Every node ends up at its place with its pointers mapped, whatever the overlap of
        old and new blocks; nothing outside the new range is written; header, bitmap and records follow. */
    method Relocate(lbas: seq<Lba>, bpn0: nat, dst: Lba, indexed: bool, sum: Checksum, ghost nodes: seq<Node>)
      requires var bpn := if bpn0 == 0 then 1 else bpn0;
        AllStored(dev, lbas, bpn, nodes) && (lbas != [] ==> Place(dst, bpn, |lbas|) <= |dev|)
      modifies this
      ensures lbas == [] ==>
        dev == old(dev) && used == old(used) && root == old(root) && freeNode == old(freeNode) && moved == old(moved)
      ensures lbas != [] ==> var bpn := if bpn0 == 0 then 1 else bpn0; var es := Moves(lbas, dst, bpn);
        && |dev| == |old(dev)|
        && (forall i | 0 <= i < |lbas| :: StoredAtPlace(dev, dst, bpn, RenamedAll(nodes, es, indexed, sum), i))
        && (forall x | 0 <= x < |dev| && !InNew(x, dst, bpn, |lbas|) :: dev[x] == old(dev)[x])
        && root == Mapped(old(root), es) && freeNode == Mapped(old(freeNode), es)
        && (forall x :: x in used <==> UsedAfter(x, old(used), lbas, bpn, dst))
        && (Distinct(lbas) ==> Recorded(old(moved), moved, lbas, dst, bpn))
    {
      if lbas == [] {
        return;
      }
      hide Place, StoredAt, StoredAtPlace, Mapped, TableOk, Records, Recorded, UsedAfter, RenamedAll, Moves;
      var bpn := if bpn0 == 0 then 1 else bpn0;
      var images := ReadNodes(lbas, bpn, nodes);
      MovesTable(lbas, dst, bpn);
      var es := Moves(lbas, dst, bpn);
      var table;
      ghost var p;
      table, p := Create(es, 1);
      images := RewriteAll(images, table, indexed, sum, es, p);
      SameLength(nodes, es, indexed, sum);
      WriteNodes(images, dst, bpn);
      root := MapPointer(table, root, es, p);
      freeNode := MapPointer(table, freeNode, es, p);
      RecordMoves(lbas, dst, bpn);
      if Distinct(lbas) {
        AllRecorded(old(moved), lbas, dst, bpn);
      }
      UpdateBitmap(lbas, dst, bpn);
    }
  }

  lemma {:induction false} WroteOne(dev: seq<Chunk>, dst: Lba, bpn: nat, images: seq<Node>, i: nat)
    requires i < |images| && StoredAt(dev, Place(dst, bpn, i), bpn, images[i])
    ensures StoredAtPlace(dev, dst, bpn, images, i)
  {
  }

  lemma {:induction false} ClearedStep(x: Lba, lbas: seq<Lba>, bpn: nat, i: nat, dst: Lba)
    requires i < |lbas|
    ensures Cleared(x, lbas, bpn, i + 1, dst)
      <==> Cleared(x, lbas, bpn, i, dst) || (!InNew(lbas[i], dst, bpn, |lbas|) && InNode(x, lbas[i], bpn))
  {
    hide Place;
    if j :| 0 <= j < i + 1 && !InNew(lbas[j], dst, bpn, |lbas|) && InNode(x, lbas[j], bpn) && j != i {
      assert Cleared(x, lbas, bpn, i, dst);
    }
  }

  lemma {:induction false} SameLength(nodes: seq<Node>, es: seq<Entry>, indexed: bool, sum: Checksum)
    ensures |RenamedAll(nodes, es, indexed, sum)| == |nodes|
  {
  }

  /** The first k nodes that change their address, with old and new address. */
  function Records(lbas: seq<Lba>, dst: Lba, bpn: nat, k: nat): seq<Entry>
    requires k <= |lbas|
  {
    if k == 0 then []
    else Records(lbas, dst, bpn, k - 1)
         + (if lbas[k - 1] == Place(dst, bpn, k - 1) then [] else [Entry(lbas[k - 1], Place(dst, bpn, k - 1), 0)])
  }

  /** What the records say: of each node that moved its new place, of any other address nothing. */
  lemma {:induction false} RecordsFirst(lbas: seq<Lba>, dst: Lba, bpn: nat, k: nat, x: Lba)
    requires Distinct(lbas) && k <= |lbas|
    ensures forall i | 0 <= i < k && lbas[i] == x && x != Place(dst, bpn, i) ::
      First(Records(lbas, dst, bpn, k), x) == Some(Entry(x, Place(dst, bpn, i), 0))
    ensures (forall i | 0 <= i < k && lbas[i] == x :: x == Place(dst, bpn, i)) ==>
      First(Records(lbas, dst, bpn, k), x) == None
  {
    if k > 0 {
      hide Place;
      RecordsFirst(lbas, dst, bpn, k - 1, x);
      var last := if lbas[k - 1] == Place(dst, bpn, k - 1) then [] else [Entry(lbas[k - 1], Place(dst, bpn, k - 1), 0)];
      FirstConcat(Records(lbas, dst, bpn, k - 1), last, x);
    }
  }

  /** The relocations recorded for distinct nodes: each that moved is found under its old address, unless that address
      had been recorded before, and nothing else is found anew. */
  ghost predicate Recorded(moved0: seq<Entry>, moved: seq<Entry>, lbas: seq<Lba>, dst: Lba, bpn: nat) {
    && (forall i | 0 <= i < |lbas| && First(moved0, lbas[i]).None? && lbas[i] != Place(dst, bpn, i) ::
          First(moved, lbas[i]) == Some(Entry(lbas[i], Place(dst, bpn, i), 0)))
    && (forall x | First(moved0, x).Some? || x !in lbas :: First(moved, x) == First(moved0, x))
    && (forall i | 0 <= i < |lbas| && lbas[i] == Place(dst, bpn, i) :: First(moved, lbas[i]) == First(moved0, lbas[i]))
  }

  lemma {:induction false} AllRecorded(moved0: seq<Entry>, lbas: seq<Lba>, dst: Lba, bpn: nat)
    requires Distinct(lbas)
    ensures Recorded(moved0, moved0 + Records(lbas, dst, bpn, |lbas|), lbas, dst, bpn)
  {
    hide Place, Records;
    var moved := moved0 + Records(lbas, dst, bpn, |lbas|);
    forall x ensures First(moved, x)
      == if First(moved0, x).Some? then First(moved0, x) else First(Records(lbas, dst, bpn, |lbas|), x)
    {
      FirstConcat(moved0, Records(lbas, dst, bpn, |lbas|), x);
    }
    forall i | 0 <= i < |lbas| ensures lbas[i] in lbas {
    }
    forall i | 0 <= i < |lbas| && First(moved0, lbas[i]).None? && lbas[i] != Place(dst, bpn, i)
      ensures First(moved, lbas[i]) == Some(Entry(lbas[i], Place(dst, bpn, i), 0))
    {
      RecordsFirst(lbas, dst, bpn, |lbas|, lbas[i]);
    }
    forall x | x !in lbas ensures First(moved, x) == First(moved0, x) {
      RecordsFirst(lbas, dst, bpn, |lbas|, x);
    }
    forall i | 0 <= i < |lbas| && lbas[i] == Place(dst, bpn, i)
      ensures First(moved, lbas[i]) == First(moved0, lbas[i])
    {
      RecordsFirst(lbas, dst, bpn, |lbas|, lbas[i]);
    }
  }
}
