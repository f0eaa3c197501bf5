# OBMAFS3 storage engine: a verified model

OBMAFS3 is a deduplicating archival filesystem. This project models its storage engine in Dafny and
proves what the engine is for: that files keep their bytes, that shared blocks are counted right, that
its trees and allocators stay well formed, and that the transformations done on import lose nothing.

`dafny verify dfyconfig.toml` checks everything. Modules follow the program:

- **Overflow-extent B+Tree** (`Overflow*.dfy`). Nodes live on a disk map from LBA to node; a tree is
  described by its levels, and everything promised is said about the flat record sequence of the leaf
  level and the entry sequence of each index level. `OverflowTree.Tree` is the code: insert with leaf and
  index splits, key refresh, sibling links and root growth, and the scans. Capacities are parameters.
  `OverflowFill` says how full the nodes are. `OverflowValues`, `OverflowRuns`, `OverflowExact`,
  `OverflowTight` and `OverflowLoss` follow inserts and clears in any order on tree values;
  `OverflowAbstract`, `OverflowCommute` and `OverflowDescent` tie them to the tree on disk.
- **Files, compression groups and reflinks** (`Blocks`, `Extents`, `Cuts`, `Coalescing`, `FileLayout`,
  `FileContent`, `Refcounts`, `FileWrites`, `FileAppends`, `GroupRewrites`, `WriteSafety`, `FileTruncate`,
  `FileClone`, `FileRead`, `Volume`, `VolumeRuns`, `VolumeCounts`, `VolumeLosses`). `Volumes.Volume` holds the
  device, the bitmap, the allocation hint, the refcount records and the inodes. `Valid()` says that each data
  block's refcount equals the number of extent references to it over all files and that its bitmap bit is set
  iff that number is positive. `Holds` says that a file is gapless and shows given blocks through literal and compressed
  extents. `VolumeRuns` refines whole runs to a table of plain byte arrays; `VolumeCounts` follows the
  refcounts over runs with holes and arbitrary clones; `VolumeLosses` gives runs from empty files that lose
  blocks.
- **Compression pool** (`CompressionPool`, `PoolRuns`). A state machine over atomic steps, with explicit
  mutex, condition variables, generations, asynchronous jobs, workers without contexts and spurious
  wake-ups.
- **Relocation** (`RelocMap`, `Relocation`, `TreeMover`, `TreeWalk`, `TreeMoves`). Probing maps, moving a
  tree by pointer rewriting, and walks over arbitrary pointer graphs.
- **Allocators** (`BitWords`, `Bitmap`, `BitmapImage`, `NodeAllocator`, `VolumeSpace`). Words are modelled as
  their bits, least significant first, with borrow and masks written out. `VolumeSpace` composes the bitmap
  with the volume.
- **Import** (`AesTables`, `AesColumns`, `Cbc`, `Aes`, `AesCode`, `AesStandard`, `Ps3Import`, `GameCubeJunk`, `Wux`).
  `AesStandard` ties tables, key schedule, cipher and chaining to the formulas of FIPS 197.

Inputs that the engine does not control are parameters: the codec (assumed lossless), the checksum
function, the junk generator's stream and its seed extraction (a match count means agreement with the
stream), the file map, short reads, and memory behind the bitmap. Integers are unbounded except where the
code's width matters: the 64-bit hash, the 32-bit generation and sector numbers, bytes in AES.

The code does less than one would hope in some places. Each is stated with its exact condition, and where
something is lost, with an input.

- *Overflow tree.* After a clear, a leaf split may raise the slot-0 key of an index node above keys stored
  below it later; when that node splits it hands this key up, and those keys are lost to lookups. The tree
  stays well formed iff each key handed up fits between what lies left of it and what lies below it
  (`OverflowValues.InsertIff`), which needs no check as long as no index node on the route is full
  (`OverflowRuns.RoomyIsSafe`). If moreover no key handed up falls below the entry it replaces, this is also
  exactly when every lookup still agrees with what is stored (`OverflowExact.InsertExact`); a key that falls
  can be out of order and lose nothing (`OverflowLoss.UnsafeYetFound`, with one record and two entries to a
  node, fewer than any block of the program holds). `OverflowLoss.KeyLost` gives a losing run for all
  capacities of at least two records and three entries, hence for every block size: insert rising keys until
  the root has split; clear the first record of the right node, refill its leaf until it splits, insert the
  record again; insert rising keys until the right node splits.
- *Writes.* Rewriting a group frees whole every compressed extent that overlaps it. As long as all
  compressed extents are whole groups this loses nothing, but a clone may put one across a group boundary.
  A write then keeps the file gapless iff no compressed extent is cut at the start of the first or the end
  of the last touched group, and keeps the content iff moreover the bytes dropped and not replaced were
  zero (`Volumes.Volume.WriteFile`); whatever the file holds, the latter is safe iff no compressed extent
  cut at the start of the last group reaches past the written bytes (`WriteSafety.SafeWhateverHeld`).
  `VolumeLosses.LoseBlockRun` is a run from empty files: one plain block, a compressed extent cloned to
  blocks 1 to 16, a write of one byte.
- *Reads.* A read that meets a hole, a block past the device or a compressed extent that does not unpack fails as
  a whole, and returns nothing of what it had read (`Volumes.Volume.ReadFile`). There is one exception: a compressed
  extent that does not unpack is served from the cache if the compressed extent read before it starts at the same
  physical block (`FileRead.CacheHit`).
- *Clones.* A clone keeps the destination gapless iff its range cuts no compressed extent of it
  (`Volumes.Volume.CloneRange`); a clone into the middle of a compressed group loses the rest of the group
  (`VolumeLosses.LoseGroupRun`).
- *Truncation and refcounts.* Truncation counts kept blocks and does not look at positions. On a file with
  gaps it may keep extents past the new end, and where it cuts a compressed extent with a gap before it, the bytes
  it copies out are not those of the extent (the model stores some bytes there); the volume stays valid iff it does not
  (`Volumes.Volume.Shrink`). A later append may then insert an overflow extent under a key that is taken,
  which replaces the record; refcounts stay right iff no overflow extent starts at an appended group
  (`Volumes.Volume.AppendFile`). Gaps need no sparse write: `VolumeLosses.LoseReferencesRun` is a run
  from empty files. Hence `VolumeCounts.RunCounts` stops before such truncations.
- *Relocation.* The bitmap update of `relocate_tree` is right iff no old node straddles an edge of the new
  range (`Relocation.BitmapExact`, input in `Relocation.StraddleLosesBlock`). References to tree nodes are brought
  up to date after a move only if data blocks were moved as well; otherwise each reference to a node that moved keeps
  its old address (`TreeMoves.MoveAndUpdate`).
- *WUX.* Sector numbers are cut to 32 bits (`Wux.Reader.OwnSectorsExact`).
- *Allocation.* The search looks from the hint to the end and then from the start to the hint, and freeing
  never lowers the hint, so a run that lies across it is not found: with 100 blocks, hint 92 and blocks 84 to
  99 free, a request for sixteen fails (`VolumeSpace.GroupAcrossHint`, `VolumeSpace.MissGroup`). The
  search fails iff all free runs of the length lie across the hint (`VolumeSpace.MissedIff`). A search for
  zero blocks behaves as a search for one (`Bitmap.Scan`).

## Model

| member | source | states |
|---|---|---|
| `OverflowOrder.ExactIsOrdered` | src/lib/block.c:693-717 | Exact separators (slot >= 1 equals its child's first key, up to left-spine slot 0) make every separator a bound: all records left of its subtree are smaller, none in it or right of it is |
| `OverflowOrder.SeparatorIsSubtreeMinimum` | src/lib/block.c:945-1088 | In an insert-only tree every separator at slot >= 1, at any height, equals the smallest key stored below it |
| `OverflowSearch.LeafFind` | src/lib/block.c:663-686 | Binary search in a sorted leaf: the position of the key if present, else the insert position between smaller and larger keys |
| `OverflowSearch.IndexFind` | src/lib/block.c:693-717 | The chosen slot is the last one whose key is not above the searched key, or slot 0 |
| `OverflowSearch.IndexFindLeft` | src/lib/block.c:731-754 | The chosen slot is the last one whose inode is strictly below the searched inode, or slot 0 |
| `OverflowTree.Tree.Descend` | src/lib/block.c:803-832 | On any searchable tree the recorded path leads to the leaf that the descent on values reaches; refused exactly when the tree is deeper than the path array |
| `OverflowTree.Tree.InsertFirst` | src/lib/block.c:776-801 | The first insert makes a single leaf that is root, with total_nodes 1 |
| `OverflowTree.Tree.SplitLeaf` | src/lib/block.c:873-959 | The two halves of a full leaf plus the new record hold the updated map; sibling links and total_nodes follow; the keys handed up are those of the insert on values |
| `OverflowTree.Tree.Propagate` | src/lib/block.c:961-1146 | Handing a split up through full and non-full parents and a new root restores levels, links and node count, and gives the value of the insert on values |
| `OverflowTree.Tree.FillParent` | src/lib/block.c:977-1012 | A parent with room takes the refreshed left key and the pushed key; every level is whole again and holds what the insert on values gives |
| `OverflowTree.Tree.DivideParent` | src/lib/block.c:1014-1107 | A full parent is divided in the middle of its merged entries, with its own split left pending |
| `OverflowTree.Tree.GrowRoot` | src/lib/block.c:1109-1145 | A new root over the two halves adds one level; every level is whole again |
| `OverflowTree.Tree.Insert` | src/lib/block.c:768-1146 | On any searchable tree, whatever was cleared from it before: the leaf chain is sorted and holds old(Model())[key := record], all leaves at one depth, both sibling chains in order at every level, total_nodes equal to the node count, and the value of the tree becomes that of the insert on values; it stays searchable iff every key handed up fits, and insert-only if it was; refused (unchanged) iff the depth limit is exceeded; NoSpace only when at most as many nodes as the tree has levels are available |
| `OverflowTree.Tree.InsertAll` | src/lib/block.c:768-1146 | From an insert-only tree, such as the empty one, any run of inserts refines the same run of map updates, with exact separators and all nodes but the root at least half full; a run is refused at the depth limit only if records stored and inserted reach 2 * ceil(I/2)^8 * ceil(L/2) records, for I entries and L records to a node |
| `OverflowFill.SplitEvenly` | src/lib/block.c:873-1107 | A node is split only when it overflows, and its items go to the two halves evenly, the extra one to the right |
| `OverflowFill.InsertFilled` | src/lib/block.c:873-1146 | An insert keeps every node but the root at least half full |
| `OverflowTree.Tree.RunAll` | src/lib/block.c:768-1769 | On disk, any safe run of inserts and clears in any order refines the same run of map updates, and the tree stays searchable; refused, with the run so far done, only at the depth limit; nothing is promised after NoSpace |
| `OverflowTree.Tree.Lookup` | src/lib/block.c:803-841 | On any searchable tree the same descent finds exactly the keys of the map, with their records |
| `OverflowTree.Tree.InsertOnlyIsSearchable` | src/lib/block.c:1182-1205 | Every insert-only tree is searchable |
| `OverflowTree.Tree.DescendLeft` | src/lib/block.c:1190-1207 | On any searchable tree the strict-less descent reaches a leaf before which no record of the inode lies |
| `OverflowTree.Tree.FindExtent` | src/lib/block.c:1182-1245 | On any searchable tree: the answer of the file layer, the first extent of the inode that holds the block, or none iff none of its extents does; an extent holds as many blocks as its logical count says |
| `OverflowLayer.CoverFound` | src/lib/block.c:1210-1245 | The first record of the inode whose logical range holds the block is the extent that the file layer finds |
| `OverflowTree.Tree.CollectExtents` | src/lib/block.c:1594-1676 | Returns exactly the inode's records, in order |
| `OverflowTree.Tree.ClearInode` | src/lib/block.c:1690-1769 | Removes exactly the inode's records; every other record, the index nodes and the chain stay; the value of the tree is cleared accordingly, and the tree stays searchable |
| `OverflowScan.ClearedIsOrdered` | src/lib/block.c:1690-1769 | Deleting records leaves every separator that was a bound a bound |
| `OverflowTight.InsertTight` | src/lib/block.c:945-1146 | An insert into a tree whose value has exact separators keeps it well formed and exact |
| `OverflowTight.ExactIsTight` | src/lib/block.c:945-1088 | Exact separators on disk make the value of the tree exact |
| `OverflowTight.TightIsExact` | src/lib/block.c:945-1088 | A whole tree on disk whose value is exact has exact separators at every level |
| `OverflowDescent.LeftDown` | src/lib/block.c:731-754 | One step of the strict-less descent, on any well-formed tree, skips no record of the inode |
| `OverflowLayer.TreeInsertForInode` | src/lib/block.c:768-1146 | A map update on the tree is, for its inode, a sorted insert over an equal offset, and nothing for any other inode |
| `OverflowLayer.ClearForInode` | src/lib/block.c:1690-1769 | Clearing empties one inode's list and leaves every other inode's list alone |
| `OverflowValues.FindExact` | src/lib/block.c:803-841 | In any well-formed tree, cleared or not, the descent finds exactly the records of the leaf chain |
| `OverflowValues.InsertUpdates` | src/lib/block.c:768-1146 | Into any well-formed tree, whatever was cleared from it before, an insert makes the leaf chain hold the updated map |
| `OverflowValues.InsertIff` | src/lib/block.c:945-1146 | The tree stays well formed iff every key that a split hands up to a slot other than 0 lies above all separators and records left of it and above no record below it |
| `OverflowRuns.RoomyIsSafe` | src/lib/block.c:768-1012 | An insert whose route meets no full index node is always safe, even if its leaf splits |
| `OverflowRuns.UnfitLoses` | src/lib/block.c:1014-1107 | Where a handed-up key is above a record below it, or not above a record left of it, that record stays stored and is no longer found |
| `OverflowExact.UnsafeLoses` | src/lib/block.c:945-1146 | If keys only rise where they replace one, an insert that is not safe leaves a record stored that a lookup no longer finds, wherever in the tree the key fails to fit |
| `OverflowExact.InsertExact` | src/lib/block.c:768-1146 | In any well-formed tree, if no handed-up key falls below the entry it replaces: every lookup after the insert agrees with the stored records iff every handed-up key fits |
| `OverflowLoss.UnsafeYetFound` | src/lib/block.c:1014-1107 | Where a handed-up key falls below the one it replaces, an insert can be unsafe and yet lose nothing |
| `OverflowRuns.ClearStrict` | src/lib/block.c:1690-1769 | Clearing an inode keeps any well-formed tree well formed |
| `OverflowRuns.RunRefines` | src/lib/block.c:768-1769 | Every safe run of inserts and clears from the empty tree refines the same run of map updates, and every lookup agrees with the map |
| `OverflowLoss.KeyLost` | src/lib/block.c:1014-1107 | For all capacities of at least two records and three entries some run of inserts and one clear stores a record that a lookup does not find: the index split hands up the slot-0 key that a leaf split raised |
| `OverflowAbstract.ExactIsStrict` | src/lib/block.c:945-1146 | The value of every insert-only tree on disk is well formed |
| `OverflowAbstract.SameRecords` | src/lib/block.c:1594-1676 | The value of a tree on disk holds the records of its leaf chain |
| `OverflowAbstract.ClearedIsStrict` | src/lib/block.c:1690-1769 | Clearing a searchable tree on disk clears its value, which stays well formed |
| `OverflowCommute.FilledStage` | src/lib/block.c:977-1012 | A parent that takes the refreshed and the pushed entry holds what the insert on values gives |
| `OverflowCommute.DividedStage` | src/lib/block.c:1014-1107 | The halves of a full parent, with the keys they hand up, are those of the insert on values |
| `OverflowCommute.ClimbToRoot` | src/lib/block.c:768-1146 | An insert settled at some height of its route is the insert of the whole tree |
| `Blocks.PackRoundTrip` | src/lib/block.c:126-141 | Unpacking header, payload and padding of a compressed group gives back the group |
| `Blocks.UnpackedExact` | src/lib/block.c:1535-1569 | Blocks unpack to given data iff they are a header with the magic, the payload checksum and sizes, the payload, and anything behind it, and the payload decompresses to the data or, without the flag, is the data |
| `FileRead.UnpackedPrefix` | src/lib/block.c:1546-1566 | Bytes behind the payload never change what a compressed extent unpacks to |
| `FileRead.CacheHit` | src/lib/block.c:1535-1569 | A decompression cache that compares only the first physical block serves what the extent at hand unpacks to, if it unpacks; if it does not, the cache still serves what the extent read before unpacked to |
| `FileRead.ByteShown` | src/lib/block.c:1485-1580 | The byte that the extent of a position gives is the byte of the content the file shows |
| `Coalescing.CoalesceCorrect` | src/lib/block.c:1871-1894 | Coalescing keeps order, physical blocks and the logical-to-physical mapping; no two uncompressed neighbours that continue each other on disk and in the file are left, and no compressed extent is merged |
| `FileWrites.StoreRoundTrip` | src/lib/block.c:1775-1831 | Collecting a stored gapless list of any length gives its coalesced form back: same mapping, maximally merged, gapless |
| `FileLayout.StoredCollect` | src/lib/block.c:1775-1831 | A stored list with gaps still comes back sorted, with the same physical blocks |
| `Volumes.Volume.CoalesceList` | src/lib/block.c:1871-1894 | The merge loop computes Coalesce |
| `Volumes.Volume.WriteExtentList` | src/lib/block.c:1861-1924 | The inode stores the coalesced list: eight inline runs, the rest as overflow extents |
| `Refcounts.DropShared` | src/lib/block.c:1836-1847 | Dropping one of several references keeps refcounts equal to references |
| `Refcounts.DropLast` | src/lib/block.c:1836-1847 | Dropping the last reference frees the block and keeps bitmap and refcounts balanced |
| `Refcounts.BalancedOne` | src/lib/block.c:1836-1847 | Bitmap and refcounts are right for at most one multiset of references, so a lost reference cannot go unnoticed |
| `Volumes.Volume.FreeSingle` | src/lib/block.c:1836-1847 | Releases exactly one reference; bitmap bit set iff references remain, refcount equal to their number |
| `Volumes.Volume.FreeRange` | src/lib/block.c:1849-1853 | Releases one reference of each block of a run |
| `Volumes.Volume.StoreGroup` | src/lib/block.c:2392-2490 | A group takes fewer blocks than it has iff it is full, compression is on, the compressor takes it, and header and payload fit into fewer blocks, and then the least number they fit into; what is stored shows the group; no referenced block is overwritten; NoSpace only if the search finds no run of some number of blocks, at most a group, on either side of the hint |
| `FileContent.StoredLeast` | src/lib/block.c:2392-2490 | The number of blocks that a group takes, in terms of the compressor and the block size alone |
| `Volumes.Volume.AllocBlocks` | src/lib/btree.c:203-224 | Takes the first fit from the hint on, else the first fit before it, marks exactly it and moves the hint behind it but never back; NoSpace iff no such run lies wholly on one side of the hint |
| `Volumes.Volume.ReadExtentBlocks` | src/lib/block.c:1358-1452 | The extent's logical blocks, literal or decompressed with zeros behind the data; fails iff the extent does not unpack or the blocks lie past the device |
| `Volumes.Volume.AssembleGroup` | src/lib/block.c:2258-2281 | The zero-filled group buffer holds what the extents hold of the group, on any list; fails iff an extent that overlaps the group cannot be read |
| `Volumes.Volume.CutExtent` | src/lib/block.c:2298-2390 | The six cases of removing a group from an extent, releasing exactly the cut physical blocks |
| `Volumes.Volume.CutGroup` | src/lib/block.c:2298-2390 | In-place removal of a group from the whole list, references balanced |
| `Cuts.LeftCutExact` | src/lib/block.c:2298-2390 | Cutting at a block keeps everything left of it iff no compressed extent is cut there |
| `Cuts.RightCutExact` | src/lib/block.c:2298-2390 | Cutting at a block keeps everything from it on iff no compressed extent is cut there |
| `Cuts.LostRight` | src/lib/block.c:2385-2390 | The blocks behind a cut that are lost are exactly those of the compressed extent cut there |
| `GroupRewrites.RebuiltCovers` | src/lib/block.c:2247-2514 | With the touched groups stored anew, the list is gapless iff no compressed extent is cut at the start of the first or the end of the last of them |
| `GroupRewrites.OverwrittenIsWritten` | src/lib/block.c:2258-2390 | What the rewrite stores equals the written content iff every byte it drops and does not replace was zero |
| `WriteSafety.SafeWhateverHeld` | src/lib/block.c:2258-2390 | No content can be lost inside the touched groups iff no compressed extent cut at the start of the last group reaches past the written bytes |
| `WriteSafety.StoredCovers` | src/lib/block.c:1861-1924 | A stored list covers the file iff the list it was stored from did |
| `WriteSafety.HoldsOne` | src/lib/block.c:1460-1584 | A file holds at most one content, so that what a write fails to keep is really lost |
| `Volumes.Volume.WriteGroup` | src/lib/block.c:2247-2514 | One round of the read-modify-write, on any file that shows a content, with holes or not: the touched group is cut out and stored anew, references balanced, and the list shows the content with what the cut dropped as zeros and the new bytes laid over it; fails to read iff something in the group cannot be read |
| `FileWrites.TouchedGroups` | src/lib/block.c:2205-2217 | The touched groups lie in the grown file, start at or before the first written byte and reach its last |
| `FileWrites.TouchedExactly` | src/lib/block.c:2205-2217 | A group is among the touched ones iff a written byte lies in it |
| `Volumes.Volume.RewriteFile` | src/lib/block.c:2205-2522 | On any file that shows a content, with holes or not: each touched group becomes one extent, compressed iff that saves blocks, and the list shows the old content, extended by zeros, less what was dropped, with the bytes laid over it; a gapless file stays so iff no compressed extent is cut at either end of the touched groups; an I/O error iff something in a touched group cannot be read; refcounts balanced; other files' blocks untouched |
| `Volumes.Volume.AppendFile` | src/lib/block.c:1942-2160 | Refcounts stay equal to references iff no overflow extent starts where an appended group does, which holds on every valid volume; whatever the offset, each appended group is one extent behind the old ones, compressed iff that saves blocks, and shows the new bytes over zeros; on a gapless file the content is the written one; other files untouched |
| `FileAppends.AppendAllOwned` | src/lib/block.c:846-853 | After any run of appended extents the file owns its old blocks and the new ones iff no key was already in its overflow list |
| `FileAppends.InsertOwned` | src/lib/block.c:846-853 | An overflow insert adds the new blocks and loses those of the record that had its key, if there is one |
| `FileAppends.AppendAllExact` | src/lib/block.c:1942-2160 | On a gapless file the appended extents come back where they were put, inline or overflow |
| `Volumes.Volume.WriteFile` | src/lib/block.c:2181-2522 | On any file and at any offset: an appended group shows the new bytes over zeros, a rewritten one the new bytes over what remains. On a file that holds a content: still gapless iff the write appends or cuts no compressed extent at the ends of the touched groups; holds exactly the written content iff moreover all dropped bytes that were not replaced were zero; files of whole groups always keep the content and stay so. An I/O error iff a touched group cannot be read; refcounts equal references throughout |
| `Volumes.Volume.FreeFile` | src/lib/block.c:2541-2565 | Releases every reference of the file once and empties its map |
| `Volumes.Volume.Unlink` | src/mount/fuse_write.c:479-492 | Deleting the last link frees the blocks and drops the record; all refcounts stay right |
| `Volumes.Volume.TruncateExtent` | src/lib/block.c:2600-2682 | Keeps, trims, copies out (compressed boundary) or frees one extent, releasing each dropped reference once; fails to read iff the cut falls into a compressed extent that does not unpack and has no gap before it |
| `Volumes.Volume.TruncateBlocks` | src/lib/block.c:2579-2687 | On any file: the extents before the cut, counted in blocks without regard to gaps, are kept as they are, and of the one that is cut its first blocks, copied out if it is compressed; what is kept shows the same content unless a compressed extent is cut with a gap before it; every dropped reference is released exactly once; an I/O error iff the compressed extent that is cut does not unpack |
| `Volumes.Volume.Shrink` | src/mount/fuse_write.c:235-252 | Shrinking keeps the counts right on every file, and cuts its list after the blocks of the new size as above; the volume is valid afterwards iff no extent kept lies past the new end, as on every gapless file, which keeps its content |
| `Volumes.Volume.CloneExtent` | src/lib/block.c:2760-2885 | Shares the very blocks of uncompressed extents and whole compressed extents, copies only a part of a compressed one; the clone shows the source's blocks; fails to read iff a part to be copied does not unpack |
| `Volumes.Volume.CloneExtents` | src/lib/block.c:2746-2886 | The clones are sorted, cover the destination range if the source covers it, and add one reference per shared block; where everything can be shared they are the source's very blocks, shifted; an I/O error iff some part to be copied does not unpack |
| `Volumes.Volume.FreeOverlaps` | src/lib/block.c:2888-2912 | The destination's references in the range, and no others, are released |
| `Volumes.Volume.AssembleList` | src/lib/block.c:2914-2973 | The surviving left and right parts around the clones, in order |
| `Volumes.Volume.CloneRange` | src/lib/block.c:2715-2986 | Inval iff misaligned, empty or onto itself (then unchanged); otherwise refcounts equal references, source and all other files unchanged, and the destination's extents around the range with the clones in it show its old content with the range replaced by what the source shows, zeros where it has nothing; of gapless files the destination is gapless, and holds that content, iff the range cuts no compressed extent of it; whole groups stay whole groups when the clone keeps positions within groups; if no compressed source extent is cut, nothing is allocated and the device is untouched |
| `Volumes.Volume.FindExtent` | src/lib/block.c:1313-1333 | Finds the extent of a block iff there is one |
| `Volumes.Volume.ReadPlain` | src/lib/block.c:1485-1532 | The block-by-block copy from an uncompressed extent gives the device's bytes; fails iff a block lies past the device |
| `Volumes.Volume.ReadPacked` | src/lib/block.c:1533-1580 | Decompress-once-and-copy gives the unpacked bytes; fails iff the extent does not unpack and is not the cached one |
| `Volumes.Volume.ReadFile` | src/lib/block.c:1460-1584 | On every valid file, with holes or not: an I/O error iff some position of the range, clipped to the size, lies in no extent, past the device, or in a compressed extent that neither unpacks nor is served from the cache; otherwise each byte is the one its extent shows. A file that holds a content is read as its bytes and never fails |
| `FileRead.WrittenBytes` | src/lib/block.c:2181-2522 | The block-level result of a hole-free write is the byte array's |
| `FileRead.ShrunkBytes` | src/lib/block.c:2579-2687 | The block-level result of a truncation is the byte array's prefix |
| `VolumeRuns.ClonedBytes` | src/lib/block.c:2715-2986 | Replacing whole blocks is writing their bytes |
| `VolumeRuns.OtherUnchanged` | src/lib/block.c:1836-1852 | What another file holds survives any operation that keeps the other files' blocks |
| `VolumeRuns.OneFileChanged` | src/lib/block.c:2181-2986 | An operation confined to one file changes only that entry of the table of byte arrays |
| `VolumeRuns.Run` | src/lib/block.c:2181-2986 | Over every run of hole-free writes, truncations, block-aligned clones and deletions on any number of files, with compression on or off per operation: refcounts equal references, bitmap bit set iff positive, every file equals the byte array under the same run. Clones may shift positions within groups; a file that took a shifted clone is then only appended to, cut off, or replaced at its ends. The run ends early only if the search finds no run of some number of blocks, at most a group, on either side of the hint |
| `VolumeRuns.ReadBack` | src/lib/block.c:1460-1584 | A read at any offset and length returns what the byte array holds there |
| `VolumeRuns.RunAndRead` | src/lib/block.c:1460-2986 | From a fresh volume: any such run, then any read, returns what plain byte arrays would |
| `VolumeCounts.RunCounts` | src/lib/block.c:1836-2986 | Refcounts equal references and bitmap bits follow, over every run of writes (with holes or not), clones of any blocks to anywhere, truncations and deletions; the run stops early only when an operation fails, or before a truncation of a file with gaps that may leave extents past the new end |
| `VolumeCounts.CutLeavesHole` | src/lib/block.c:2385-2390 | Rewriting group 9 frees a compressed extent at blocks 129 to 144 and leaves a hole before the group |
| `VolumeCounts.StrayTruncated` | src/lib/block.c:2600-2645 | Truncating such a file to 144 blocks keeps fifteen blocks that lie from block 144 on |
| `VolumeCounts.LoseReferences` | src/lib/block.c:1942-2645 | After that truncation the volume is no longer valid, and appending at the end leaves blocks marked used that nothing refers to |
| `VolumeCounts.ShiftedCut` | src/lib/block.c:2385-2390 | In a file of one plain block and a compressed extent at blocks 1 to 16, cutting out group 0 loses block 16 |
| `VolumeCounts.LoseBlock` | src/lib/block.c:2205-2522 | Any write within the first 16 blocks of such a file leaves a hole in it |
| `VolumeCounts.LoseGroup` | src/lib/block.c:2888-2973 | A clone of blocks 4 to 7 into a file that is one compressed group leaves a file with holes |
| `VolumeLosses.LoseBlockRun` | src/lib/block.c:2181-2986 | From two empty files: write a group that compresses, write one block, clone the group behind it; then any write within the first group leaves a hole |
| `VolumeLosses.LoseGroupRun` | src/lib/block.c:2181-2986 | From two empty files: two writes and a clone into the middle of a compressed group leave a file with holes |
| `VolumeLosses.LoseReferencesRun` | src/lib/block.c:1942-2986 | From two empty files: writes, one clone, a rewrite, a truncation and an append, after which blocks are marked used that nothing refers to |
| `VolumeLosses.CloneGroup` | src/lib/block.c:2715-2986 | Cloning a compressed group behind the end of a file adds the very same physical blocks as its last extent |
| `VolumeLosses.ReadHole` | src/lib/block.c:1460-1584 | Reading the whole of a file with a hole ends with an I/O error |
| `CompressionPool.StepKeeps` | src/lib/block.c:92-239 | Every atomic step of every thread keeps the invariant: claimed = counted + uncounted, one executor per claimed unfinished job, mutex discipline, a coming signal whenever the submitter waits with all jobs counted |
| `CompressionPool.SpuriousKeeps` | src/lib/block.c:180-181 | A spurious wake-up keeps the invariant |
| `PoolRuns.BatchSafety` | src/lib/block.c:359-420 | Under every schedule, spurious wake-ups included: no job executed twice or by two threads, done never above total, and when the submitter has left every job ran exactly once and nothing is running |
| `PoolRuns.SomeThreadSteps` | src/lib/block.c:221-229 | Until the submitter leaves some thread can step: the final signal cannot be lost |
| `PoolRuns.StepDecreases` | src/lib/block.c:167-239 | Every step lowers a measure |
| `PoolRuns.RunsAreBounded` | src/lib/block.c:359-420 | No schedule, fair or not, keeps a batch busy for more steps than the measure |
| `PoolRuns.Submit` | src/lib/block.c:359-420 | Under any scheduler the submission returns with every job's result |
| `PoolRuns.SubmitInline` | src/lib/block.c:361-374 | The path without a pool gives the same results |
| `RelocMap.HasFree` | src/defrag/defrag_compact.c:1824-1849 | A table of at least twice the entries always has a free slot |
| `RelocMap.Ahead` | src/defrag/defrag_compact.c:1856-1863 | Every probe, with wrap-around, reaches a free slot |
| `RelocMap.PathOrder` | src/defrag/defrag_compact.c:1839-1848 | On a probe path entries for one address appear in recording order |
| `RelocMap.Create` | src/defrag/defrag_compact.c:1816-1850 | The filled table holds every entry in the first slot of its probe path that no earlier entry took |
| `RelocMap.Get` | src/defrag/defrag_compact.c:1853-1864 | The new address of the earliest entry recorded, 0 iff there is none |
| `RelocMap.GetByChecksum` | src/defrag/defrag_compact.c:1870-1887 | The earliest entry whose checksum also matches, else the earliest entry, else 0 |
| `RelocMap.Lookup` | src/defrag/defrag_compact.c:1620-1630 | The earliest entry's new address, else the given default |
| `TreeMover.Mover.RewriteNode` | src/defrag/defrag_compact.c:1632-1700 | All pointers of a node mapped; its checksum is recomputed iff one changed |
| `TreeMover.Mover.Relocate` | src/defrag/defrag_compact.c:1554-1797 | Every node ends at its place with mapped pointers even when old and new blocks overlap; nothing outside the range is written; root and free list mapped; bitmap as the code leaves it; each node that moves is recorded with its new address, and no other address is |
| `Relocation.MovedImage` | src/defrag/defrag_compact.c:1554-1797 | The moved nodes are the image of the old ones under the address map |
| `Relocation.NotMoved` | src/defrag/defrag_compact.c:1620-1630 | A pointer to anything but a moved node is left alone |
| `Relocation.SameTree` | src/defrag/defrag_compact.c:1630-1700 | Below any node, to any depth, the moved tree is the same tree: same keys, records and order |
| `Relocation.SameTrail` | src/defrag/defrag_compact.c:1639-1668 | Left links, right links and the free chain lead through the same contents in the same order |
| `Relocation.BitmapExact` | src/defrag/defrag_compact.c:1772-1781 | The bitmap becomes (before minus old nodes) union new range iff no old node straddles an edge of the range |
| `Relocation.StraddleLosesBlock` | src/defrag/defrag_compact.c:1772-1781 | A node of two blocks at 9 moved to 10: block 10 of the new node comes out as free |
| `TreeWalk.CollectNodes` | src/defrag/defrag_compact.c:1446-1547 | The nodes of a finite tree in breadth-first order, then the free chain; none without a root |
| `TreeMoves.MoveTree` | src/defrag/defrag_compact.c:1446-1797 | Collecting and moving a whole tree, read back from the device: every node at its new address, and the root and free list that the header then names, start the same tree to any depth and the same trails along sibling links and free chain; checksums are recomputed where a pointer changed and untouched elsewhere; the recorded moves send each node that moved to its new address and name no other; nothing outside the new range is written |
| `TreeMoves.UpdateReferences` | src/defrag/defrag_compact.c:2600-2730 | A reference follows the first recorded move of its address; all others stay |
| `TreeMoves.MoveAndUpdate` | src/defrag/defrag_compact.c:3343-3370 | After a move, every reference to a node of the tree leads to the same tree at its new place iff data blocks were moved too or no referenced node moved; other references stay |
| `TreeMoves.NodesClosed` | src/defrag/defrag_compact.c:1446-1547 | The collected nodes are closed under child pointers and free links, given that sibling links stay in the tree |
| `TreeWalk.WalkTree` | src/defrag/defrag_analysis.c:96-202 | Terminates on every pointer graph; newly marks exactly the in-range blocks reachable through blocks not already marked; returns their number |
| `TreeWalk.WalkDone` | src/defrag/defrag_analysis.c:96-202 | With nothing pending, found equals reachable |
| `TreeWalk.WalkFreeChain` | src/defrag/defrag_analysis.c:210-252 | Marks the chain up to its first repeat, marked block, bad link or unreadable block, and counts it |
| `BitWords.ClearLowest` | src/lib/bitmap.c:380-380 | m & (m - 1) clears the lowest set bit and no other |
| `BitWords.LowMask` | src/lib/bitmap.c:331-344 | (1 << n) - 1 has exactly the n lowest bits |
| `Bitmap.FirstRun` | src/lib/bitmap.c:356-381 | The first run to reach n blocks is the first fit |
| `Bitmap.MaskedWord` | src/lib/bitmap.c:326-344 | The masked word shows a block as free iff it is free and inside the scanned segment; memory behind the map never matters |
| `Bitmap.Scan` | src/lib/bitmap.c:314-385 | One pass returns the lowest start of n free blocks lying wholly in the segment, none iff there is none |
| `Bitmap.AllocationBitmap.FindFree` | src/lib/bitmap.c:288-388 | Segment-wise first fit from the hint, then from the start; NoSpace iff neither segment holds a run; Inval iff no bitmap |
| `Bitmap.AllocationBitmap.Set` | src/lib/bitmap.c:232-240 | Sets exactly the blocks of the range that the map has |
| `Bitmap.AllocationBitmap.Clear` | src/lib/bitmap.c:249-257 | Clears exactly the blocks of the range that the map has |
| `Bitmap.AllocationBitmap.IsSet` | src/lib/bitmap.c:266-271 | True iff loaded, in range and set |
| `Bitmap.AllocationBitmap.AllocBlocks` | src/lib/btree.c:203-224 | Hands out the run that the search finds, marks exactly it, and never moves the hint back; NoSpace iff the search finds none |
| `VolumeSpace.AllocateBoth` | src/lib/btree.c:203-224 | Bitmap and volume, showing the same blocks and hint, allocate the same run or both fail, and show the same afterwards |
| `VolumeSpace.MissedIff` | src/lib/bitmap.c:288-388 | The search finds nothing iff every free run of that length lies across the hint |
| `VolumeSpace.GroupAcrossHint` | src/lib/bitmap.c:288-388 | 100 blocks, hint 92, blocks 84 to 99 free: sixteen blocks are not found |
| `VolumeSpace.MissGroup` | src/lib/btree.c:203-224 | On such a volume storing sixteen blocks ends with NoSpace while sixteen blocks in a row are free |
| `BitmapImage.WriteBitmap` | src/lib/bitmap.c:166-219 | Block i of the image is block i of header and map, zero-filled |
| `BitmapImage.HeaderParts` | src/lib/bitmap.c:166-219 | Where the header holds magic, block count, hint and checksum |
| `BitmapImage.ReadBitmap` | src/lib/bitmap.c:62-155 | The map behind the header, accepted iff magic and checksum match |
| `BitmapImage.WriteThenRead` | src/lib/bitmap.c:62-219 | If the blocks can hold header and map, reading restores map and hint and passes the checksum |
| `NodeAllocator.Allocator.AllocNode` | src/lib/btree.c:251-379 | The node handed out is not live and shares no block with a live node; chain acyclic, in bounds and as long as recorded; NoSpace changes nothing and only occurs when no run for a single node lies on either side of the hint; a clump is the first of the halved sizes that fits |
| `NodeAllocator.Allocator.PopNode` | src/lib/btree.c:258-313 | Pops the head of the chain |
| `NodeAllocator.Allocator.FindClump` | src/lib/btree.c:326-342 | Halving the wish terminates; the size found is the first that the search finds, and NoSpace means that it finds not even one node |
| `NodeAllocator.HalvedExactly` | src/lib/btree.c:326-342 | The k-th size tried is the wish over 2^k, rounded down |
| `NodeAllocator.Allocator.LinkClump` | src/lib/btree.c:353-372 | Nodes 1 to n - 1 form a chain in order |
| `NodeAllocator.Allocator.TakeClump` | src/lib/btree.c:317-378 | All blocks taken belong to new nodes; the first is live, the others are chained |
| `NodeAllocator.Allocator.FreeNode` | src/lib/btree.c:394-425 | A live node becomes the head of the chain; impossible addresses change nothing |
| `NodeAllocator.Allocator.Partition` | src/lib/btree.c:251-425 | Every block taken belongs to exactly one node, which is live or free but not both |
| `AesTables.SboxInverse` | src/lib/aes128.c:38-76 | The two tables are inverse permutations |
| `AesStandard.SboxIsStandard` | src/lib/aes128.c:38-76 | The S-box is the affine map of section 5.1.1 of FIPS 197 applied to the inverse in GF(2^8), 0 to 0 |
| `AesStandard.InvIsInverse` | src/lib/aes128.c:38-76 | Every byte but 0 has an inverse under the product of section 4.2 of FIPS 197 |
| `AesColumns.MixedIsProduct` | src/lib/aes128.c:139-151 | The shortcut equals the matrix product of section 5.1.3 of FIPS 197 |
| `AesColumns.InvMixOfMix` | src/lib/aes128.c:153-164 | Pre-multiply followed by mix undoes mix |
| `AesColumns.MixOfInvMix` | src/lib/aes128.c:153-164 | Mix undoes pre-multiply followed by mix |
| `AesStandard.XtimeReduces` | src/lib/aes128.c:82-82 | Doubling is a shift in sixteen bits, reduced by the polynomial 0x11B of section 4.2 of FIPS 197 |
| `AesCode.KeyExpansion` | src/lib/aes128.c:84-101 | The key schedule recurrence of section 5.2 of FIPS 197 |
| `AesStandard.KeyIsStandard` | src/lib/aes128.c:84-101 | Byte by byte, the schedule is the one of section 5.2 of FIPS 197, with the constants as powers of 2 in GF(2^8) |
| `AesCode.MixColumnsInPlace` | src/lib/aes128.c:139-151 | In place, column by column |
| `AesCode.InvMixColumnsInPlace` | src/lib/aes128.c:153-164 | In place, the inverse column mix |
| `AesCode.ShiftRowsInPlace` | src/lib/aes128.c:115-125 | In place, the row shift |
| `AesCode.InvShiftRowsInPlace` | src/lib/aes128.c:127-137 | In place, the inverse row shift |
| `AesStandard.EncryptIsStandard` | src/lib/aes128.c:166-182 | Encryption is the chain of eleven states of section 5.1 of FIPS 197, each byte given by the S-box, row shift, matrix product and key byte |
| `AesCode.EncryptBlock` | src/lib/aes128.c:166-182 | The in-place rounds compute Encrypt |
| `AesCode.DecryptBlock` | src/lib/aes128.c:184-200 | The in-place rounds compute Decrypt |
| `Aes.DecryptOfEncrypt` | src/lib/aes128.c:166-200 | Decryption undoes encryption for every key and block |
| `Aes.EncryptOfDecrypt` | src/lib/aes128.c:166-200 | Encryption undoes decryption for every key and block |
| `Cbc.CbcDecryptOfEncrypt` | src/lib/aes128.c:209-235 | CBC decryption undoes CBC encryption for every IV and whole-block length, for any block cipher |
| `Cbc.CbcEncryptOfDecrypt` | src/lib/aes128.c:209-235 | CBC encryption undoes CBC decryption |
| `AesCode.CbcDecryptBuffer` | src/lib/aes128.c:209-221 | The loop computes CBC decryption under AES-128 |
| `AesCode.CbcEncryptBuffer` | src/lib/aes128.c:223-235 | The loop computes CBC encryption under AES-128 |
| `AesStandard.CbcIsStandard` | src/lib/aes128.c:223-235 | Byte by byte, CBC under that cipher: each block is encrypted over the one before it, the first over the IV |
| `Ps3Import.IsEncrypted` | src/import-ps3/disc.c:113-121 | Encrypted iff in no plaintext region |
| `Ps3Import.MakeIv` | src/import-ps3/disc.c:130-138 | The sector number, big-endian in sixteen bytes |
| `Ps3Import.IvIsNumber` | src/import-ps3/disc.c:130-138 | The sixteen bytes are digits to base 256, most significant first, that stand for the sector number |
| `Ps3Import.Import` | src/import-ps3/import.c:70-143 | The batched output is the sector-wise image, whatever the batch boundaries; counters right |
| `Ps3Import.ImportIsLossless` | src/import-ps3/import.c:70-143 | Re-encrypting each sector under the same map and IV gives the source disc back |
| `GameCubeJunk.Add` | src/import-ngcw/junk_map.c:49-84 | Merging never changes the seed recorded for a byte; regions stay disjoint and increasing |
| `GameCubeJunk.FillerBlock` | src/import-ngcw/import.c:192-212 | Every sector outside files is zeroed and recorded, data sectors stay |
| `GameCubeJunk.MixedRun` | src/import-ngcw/import.c:249-311 | A sector is dropped only if it equals the stream at its own position; all others stay verbatim |
| `GameCubeJunk.MixedBlock` | src/import-ngcw/import.c:213-313 | Every run of non-data sectors is worked through once |
| `GameCubeJunk.ImportGameCube` | src/import-ngcw/import.c:81-334 | Refilling the recorded regions at position offset mod 0x8000 restores every byte of the source; the seed recorded for each byte is exactly the one its block, run and sector call for; system and file sectors verbatim and never recorded; each counter counts the sectors of its kind |
| `GameCubeJunk.KindExact` | src/import-ngcw/import.c:192-311 | A sector counts as junk iff it is dropped, or is kept, lies outside system area and files and is all zeros, which is counted apart; as data otherwise |
| `GameCubeJunk.DroppedExactly` | src/import-ngcw/import.c:192-311 | A sector outside files is dropped iff its whole block, or its whole run of such sectors, agrees with the stream of one seed, and then under that seed |
| `GameCubeJunk.FlagsExact` | src/import-ngcw/import.c:172-190 | A sector is kept as data iff it starts in the system area or the file map holds it |
| `Wux.Reader.Init` | src/import-wiiu/disc.c:46-87 | Accepts exactly readable WUX headers with a full index; index and data offset as laid out; the reader is then ready to read |
| `Wux.Reader.Read` | src/import-wiiu/disc.c:124-156 | Under any short reads and any repeats in the index, on discs of any size, the bytes returned are those of the expanded disc as the 32-bit sector number finds them, and all requested ones if the file is complete |
| `Wux.Reader.OwnSectorsExact` | src/import-wiiu/disc.c:61-139 | Every sector has an index entry of its own iff the disc has less than 2^32 sectors |
| `Wux.ReadLayout` | src/import-wiiu/disc.c:46-156 | Opening a file laid out as a WUX, with any sectors shared, and reading from it gives the bytes of the disc it stands for, clipped to its end |

## Left out

- The overflow tree inside the file layer: `File.over` is the inode's ordered list, and `OverflowLayer` proves what tree operations mean for it; depth-limit and node-space failures of that tree do not surface in file operations. Storing a list clears the inode's records and inserts them again, so on runs that rewrite a file of more than eight extents `VolumeRuns.RunAndRead` and `VolumeCounts.RunCounts` are about the ideal list, which the tree on disk gives on safe runs (`OverflowTree.Tree.RunAll`).
- Failures in the middle of an operation: after NoSpace or an I/O error nothing is promised about blocks already taken or released; crash ordering and memory exhaustion are not modelled.
- Sparse files: what a write, clone or truncation makes of them is proved for the extent list that is then stored. Storing it gives inline extents the offsets that those before them imply, so that on a file with holes they may shift; the later reads see the shifted list (`FileLayout.StoredCollect`).
- Writes of zero bytes, which the callers do not make.
- A clone that starts past the last byte but within the last block shows what that block holds.
- The refcount, catalog, inode, metadata and dedup trees: only the refcount contract (absence means one) is used.
- zstd, LZMA and xxHash, and the probe that skips hopeless compression: a compressor may decline any group.
- Metadata nodes that the program takes from the same bitmap while files are written: they move the hint and take blocks there, while in the volume `reserved` is fixed.
- Volumes.Volume.AppendFile: stores group by group, while the code assembles and compresses all groups before it stores the first; the groups do not overlap, so the order shows only in which blocks are taken.
- Batches submitted while an old worker still holds the previous one, pool restart after fork, shutdown, and asynchronous jobs arriving during a batch.
- RelocMap.Home: masks are remainders, the capacity being a power of two; capacities beyond 64 bits are not modelled.
- TreeMover.Mover.Relocate: nodes are structured values spread over blocks, not bytes; block types for display, progress counters and I/O failures are left out.
- NodeAllocator.Allocator.AllocNode: the branches that discard a corrupt free list cannot be reached under the invariant and are left out, as is a failing write while the clump is chained.
- Whole-disk compaction and dedup eviction; of the reference update after relocation, TreeMoves.UpdateReferences models the addresses of tree nodes, not those of data blocks.
- Errors of the device and of unpacking are one status: bad magic, bad checksum, failed decompression and a short device all end an operation with an I/O error.
- Bitmap locking and the lazy persistence schedule.
- Wii group import, the Nintendo generator itself, WUD files that are read directly, disc keys and metadata.
- User interface, ioctls, command lines, cue sheets, sidecars and string tables.
