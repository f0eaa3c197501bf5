/** Removal of pseudo-random filler from GameCube discs: sectors outside files that the generator can
    reproduce are zeroed and recorded with their seed. */
module GameCubeJunk {
  import opened Blocks
  import opened FileContent

  const BLOCK := 0x8000
  const SECTOR := 2048
  /** Bytes needed to extract a seed: 521 words. */
  const SEED_BYTES := 2084

  /** The generator's state words. */
  type Seed = seq<nat>

  /** Foreign code: the generator's byte stream for a seed, seed extraction from data at a stream
      position (how many bytes agree with the stream of which seed), and the file map. */
  datatype Env = Env(
    stream: (Seed, nat) -> byte,
    getSeed: (Bytes, nat) -> (nat, Seed),
    isFile: (nat, nat) -> bool)

  /** The match count means agreement with the stream. */
  ghost predicate EnvOk(env: Env) {
    forall data: Bytes, at: nat {:trigger env.getSeed(data, at)} ::
      forall k | 0 <= k < |data| && k < env.getSeed(data, at).0 ::
        data[k] == env.stream(env.getSeed(data, at).1, at + k)
  }

  // ----- the collector

  datatype Region = Region(offset: nat, length: nat, seed: Seed)

  predicate In(r: Region, o: nat) {
    r.offset <= o < r.offset + r.length
  }

  /** The seed recorded for byte o. */
  function Label(rs: seq<Region>, o: nat): Option<Seed> {
    if rs == [] then None
    else if In(rs[|rs| - 1], o) then Some(rs[|rs| - 1].seed)
    else Label(rs[..|rs| - 1], o)
  }

  /** Disjoint, increasing, and ending by byte n. */
  ghost predicate Increasing(rs: seq<Region>, n: nat) {
    && (forall i | 0 <= i < |rs| :: rs[i].length > 0 && rs[i].offset + rs[i].length <= n)
    && (forall i, j | 0 <= i < j < |rs| :: rs[i].offset + rs[i].length <= rs[j].offset)
  }

  lemma {:induction false} NoLabelPast(rs: seq<Region>, n: nat, o: nat)
    requires Increasing(rs, n) && o >= n
    ensures Label(rs, o) == None
  {
    if rs != [] {
      NoLabelPast(rs[..|rs| - 1], n, o);
    }
  }

  /** ngcw_junk_collector_add: an adjacent region with the same seed extends the last entry. Merging never
      changes what is recorded for a byte. */
  method Add(rs: seq<Region>, r: Region) returns (rs': seq<Region>)
    requires Increasing(rs, r.offset) && r.length > 0
    ensures Increasing(rs', r.offset + r.length)
    ensures forall o :: Label(rs', o) == if In(r, o) then Some(r.seed) else Label(rs, o)
    ensures |rs'| <= |rs| + 1
  {
    if |rs| > 0 {
      var last := rs[|rs| - 1];
      if last.offset + last.length == r.offset && last.seed == r.seed {
        rs' := rs[|rs| - 1 := last.(length := last.length + r.length)];
        assert rs'[..|rs'| - 1] == rs[..|rs| - 1];
        return;
      }
    }
    rs' := rs + [r];
    assert rs'[..|rs'| - 1] == rs;
  }

  // ----- losslessness of a part of the image

  /** Byte o of the image gives back byte o of the source: as it is, or from the recorded seed's stream at
      position o mod 0x8000. */
  ghost predicate ByteOk(env: Env, src: Bytes, rs: seq<Region>, o: nat, b: byte)
    requires o < |src|
  {
    match Label(rs, o)
    case None => b == src[o]
    case Some(seed) => b == 0 && src[o] == env.stream(seed, o % BLOCK)
  }

  /** The first n bytes of a block at `base` are done, the others untouched. */
  ghost predicate PartOk(env: Env, src: Bytes, rs: seq<Region>, base: nat, buf: Bytes, n: nat) {
    && base + |buf| <= |src| && n <= |buf| && Increasing(rs, base + n)
    && (forall k | 0 <= k < n :: ByteOk(env, src, rs, base + k, buf[k]))
    && (forall k | n <= k < |buf| :: buf[k] == src[base + k])
  }

  ghost predicate ImageOk(env: Env, src: Bytes, rs: seq<Region>, out: Bytes) {
    |out| <= |src| && Increasing(rs, |out|) && forall o | 0 <= o < |out| :: ByteOk(env, src, rs, o, out[o])
  }

  /** Bytes [from, to) of a block agree with the stream. */
  ghost predicate Streamed(env: Env, buf: Bytes, seed: Seed, from: nat, to: nat) {
    to <= |buf| && forall k | from <= k < to :: buf[k] == env.stream(seed, k)
  }

  /** A sector kept verbatim. */
  lemma {:induction false} KeepSector(env: Env, src: Bytes, rs: seq<Region>, base: nat, buf: Bytes, s: nat, n: nat)
    requires PartOk(env, src, rs, base, buf, s) && s + n <= |buf|
    ensures PartOk(env, src, rs, base, buf, s + n)
  {
    forall k | s <= k < s + n ensures ByteOk(env, src, rs, base + k, buf[k]) {
      NoLabelPast(rs, base + s, base + k);
    }
  }

  /** A sector that the seed reproduces, zeroed and recorded. */
  lemma {:induction false} ZeroSector(env: Env, src: Bytes, rs: seq<Region>, rs': seq<Region>, base: nat, buf: Bytes,
                                      buf': Bytes, s: nat, n: nat, seed: Seed)
    requires PartOk(env, src, rs, base, buf, s) && s + n <= |buf| <= BLOCK && n > 0 && base % BLOCK == 0
    requires buf' == buf[..s] + Zeros(n) + buf[s + n..] && Increasing(rs', base + s + n)
    requires forall o :: Label(rs', o) == if In(Region(base + s, n, seed), o) then Some(seed) else Label(rs, o)
    requires Streamed(env, buf, seed, s, s + n)
    ensures PartOk(env, src, rs', base, buf', s + n)
  {
    forall k | 0 <= k < s + n ensures ByteOk(env, src, rs', base + k, buf'[k]) {
      if k < s {
        assert buf'[k] == buf[k] && ByteOk(env, src, rs, base + k, buf[k]);
      } else {
        assert buf'[k] == 0;
        assert buf[k] == env.stream(seed, k);
        InBlock(base, k);
      }
    }
  }

  lemma {:induction false} InBlock(base: nat, k: nat)
    requires base % BLOCK == 0 && k < BLOCK
    ensures (base + k) % BLOCK == k
  {
  }

  /** A finished block joins the image. */
  lemma {:induction false} AppendBlock(env: Env, src: Bytes, rs: seq<Region>, rs': seq<Region>, out: Bytes, buf: Bytes)
    requires ImageOk(env, src, rs, out) && PartOk(env, src, rs', |out|, buf, |buf|)
    requires forall o | 0 <= o < |out| :: Label(rs', o) == Label(rs, o)
    ensures ImageOk(env, src, rs', out + buf)
  {
    forall o | 0 <= o < |out + buf| ensures ByteOk(env, src, rs', o, (out + buf)[o]) {
      if o < |out| {
        assert ByteOk(env, src, rs, o, out[o]);
      } else {
        assert ByteOk(env, src, rs', |out| + (o - |out|), buf[o - |out|]);
      }
    }
  }

  // ----- what the counters count

  datatype Kind = Kept | Dropped | Blank

  /** Sector i of a block is all zeros. */
  ghost predicate ZeroSectorAt(blk: Bytes, i: nat)
    requires SECTOR * i <= |blk|
  {
    forall k | SECTOR * i <= k < SECTOR * i + SectorLength(SECTOR * i, |blk|) :: blk[k] == 0
  }

  /** The run of sector i has no seed. */
  ghost predicate RunSeedless(env: Env, blk: Bytes, data: seq<bool>, i: nat)
    requires i < |data| && SECTOR * i <= |blk|
  {
    var from, to := SECTOR * RunFrom(data, i), Min(SECTOR * RunTo(data, i), |blk|);
    from <= to && SeedFor(env, blk, from, to) == None
  }

  /** A sector that is dropped counts as junk; a zero one of a run without a seed is kept and counted apart. */
  ghost function KindOf(env: Env, blk: Bytes, data: seq<bool>, i: nat): Kind
    requires i < |data| && SECTOR * i <= |blk|
  {
    if SectorSeed(env, blk, data, i).Some? then Dropped
    else if !data[i] && RunSeedless(env, blk, data, i) && ZeroSectorAt(blk, i) then Blank
    else Kept
  }

  ghost function Count(env: Env, blk: Bytes, data: seq<bool>, i: nat, kind: Kind): nat
    requires i <= |data| == (|blk| + SECTOR - 1) / SECTOR
  {
    if i == 0 then 0
    else Count(env, blk, data, i - 1, kind) + if KindOf(env, blk, data, i - 1) == kind then 1 else 0
  }

  /** The counters after the first i sectors of a block. */
  ghost predicate Counted(env: Env, blk: Bytes, data: seq<bool>, i: nat, d: nat, j: nat, z: nat) {
    && i <= |data| == (|blk| + SECTOR - 1) / SECTOR && d == Count(env, blk, data, i, Kept)
    && j == Count(env, blk, data, i, Dropped) + Count(env, blk, data, i, Blank) && z == Count(env, blk, data, i, Blank)
  }

  /** What is known while a block is worked through, sector by sector. */

  function Min(a: nat, b: nat): nat {
    if a < b then a else b
  }

  /** Length of the sector at byte s of a block. */
  function SectorLength(s: nat, bytes: nat): nat
    requires s <= bytes
  {
    Min(SECTOR, bytes - s)
  }

  /** The sector belongs to the system area or to a file. */
  predicate DataSector(env: Env, sysEnd: nat, offset: nat, length: nat) {
    offset < sysEnd || env.isFile(offset, length)
  }

  /** The sector of a block at `base` that holds byte o. */
  function SectorOf(base: nat, o: nat): nat
    requires base <= o
  {
    (o - base) / SECTOR
  }

  // ----- which sectors are filler, and from which seed

  /** The run of sectors outside files that holds sector i. */
  function RunFrom(data: seq<bool>, i: nat): nat
    requires i <= |data|
  {
    if i == 0 || data[i - 1] then i else RunFrom(data, i - 1)
  }

  function RunTo(data: seq<bool>, i: nat): nat
    requires i <= |data|
    decreases |data| - i
  {
    if i == |data| || data[i] then i else RunTo(data, i + 1)
  }

  lemma {:induction false} RunBounds(data: seq<bool>, first: nat, end: nat, i: nat)
    requires first <= i < end <= |data| && (forall j | first <= j < end :: !data[j])
    requires (first == 0 || data[first - 1]) && (end == |data| || data[end])
    ensures RunFrom(data, i) == first && RunTo(data, i) == end
  {
    StartOfRun(data, first, i);
    EndOfRun(data, end, i);
  }

  lemma {:induction false} StartOfRun(data: seq<bool>, first: nat, i: nat)
    requires first <= i < |data| && (forall j | first <= j < i :: !data[j]) && (first == 0 || data[first - 1])
    ensures RunFrom(data, i) == first
  {
    if i > first {
      StartOfRun(data, first, i - 1);
    }
  }

  lemma {:induction false} EndOfRun(data: seq<bool>, end: nat, i: nat)
    requires i <= end <= |data| && (forall j | i <= j < end :: !data[j]) && (end == |data| || data[end])
    ensures RunTo(data, i) == end
    decreases end - i
  {
    if i < end {
      EndOfRun(data, end, i + 1);
    }
  }

  /** The seed extracted from bytes [from, to) of a block, if all of them agree with its stream. */
  function SeedFor(env: Env, blk: Bytes, from: nat, to: nat): Option<Seed>
    requires from <= to <= |blk|
  {
    if to - from >= SEED_BYTES && env.getSeed(blk[from..to], from).0 >= to - from
    then Some(env.getSeed(blk[from..to], from).1)
    else None
  }

  /** The seed under which sector i is dropped: none for data; that of the whole block if it is filler from
      end to end; else that of the sector's run, if the sector itself agrees with it. */
  ghost function SectorSeed(env: Env, blk: Bytes, data: seq<bool>, i: nat): Option<Seed>
    requires i < |data|
  {
    if data[i] || SECTOR * i >= |blk| then None
    else if SeedFor(env, blk, 0, |blk|).Some? then SeedFor(env, blk, 0, |blk|)
    else
      var from, to := SECTOR * RunFrom(data, i), Min(SECTOR * RunTo(data, i), |blk|);
      if from > to then None
      else
        var seed := SeedFor(env, blk, from, to);
        if seed.Some? && Streamed(env, blk, seed.value, SECTOR * i, SECTOR * i + SectorLength(SECTOR * i, |blk|))
        then seed else None
  }

  /** All of bytes [from, to) of a block, at least as many as a seed takes, agree with the stream of one seed. */
  ghost predicate AllMatch(env: Env, blk: Bytes, from: nat, to: nat) {
    from + 2084 <= to <= |blk| && env.getSeed(blk[from..to], from).0 >= to - from
  }

  /** A sector outside files is dropped exactly if its whole block is reproducible, or its whole run of sectors
      outside files, and then under the seed of that block or run. */
  lemma {:induction false} DroppedExactly(env: Env, blk: Bytes, data: seq<bool>, first: nat, end: nat, i: nat)
    requires EnvOk(env) && |blk| <= 0x8000 && |data| == (|blk| + 2047) / 2048
    requires first <= i < end <= |data| && (forall j | first <= j < end :: !data[j])
    requires (first == 0 || data[first - 1]) && (end == |data| || data[end])
    ensures var from, to := 2048 * first, if 2048 * end < |blk| then 2048 * end else |blk|;
      && (AllMatch(env, blk, 0, |blk|) ==> SectorSeed(env, blk, data, i) == Some(env.getSeed(blk, 0).1))
      && (!AllMatch(env, blk, 0, |blk|) && AllMatch(env, blk, from, to) ==>
          SectorSeed(env, blk, data, i) == Some(env.getSeed(blk[from..to], from).1))
      && (!AllMatch(env, blk, 0, |blk|) && !AllMatch(env, blk, from, to) ==> SectorSeed(env, blk, data, i) == None)
  {
    var from, to := 2048 * first, if 2048 * end < |blk| then 2048 * end else |blk|;
    assert blk[0..|blk|] == blk && 2048 * i < |blk|;
    RunBounds(data, first, end, i);
    if !AllMatch(env, blk, 0, |blk|) && AllMatch(env, blk, from, to) {
      var seed := env.getSeed(blk[from..to], from).1;
      forall k | from <= k < to ensures blk[k] == env.stream(seed, k) {
        assert blk[from..to][k - from] == env.stream(seed, from + (k - from));
      }
    }
  }

  /** The first n sectors of the block are recorded exactly as they should be. */
  ghost predicate Labelled(env: Env, rs: seq<Region>, base: nat, blk: Bytes, data: seq<bool>, n: nat) {
    forall o {:trigger Label(rs, o)} | base <= o < base + |blk| && SectorOf(base, o) < n
      && SectorOf(base, o) < |data| ::
      Label(rs, o) == SectorSeed(env, blk, data, SectorOf(base, o))
  }

  /** Block bytes of the source. */
  function BlockOf(src: Bytes, base: nat, n: nat): Bytes
    requires base + n <= |src|
  {
    src[base..base + n]
  }

  /** Bytes before the block keep their labels. */
  ghost predicate SameBefore(rs: seq<Region>, rs': seq<Region>, base: nat) {
    forall o | 0 <= o < base :: Label(rs', o) == Label(rs, o)
  }

  /** Which sectors of a block are data. */
  function Flags(env: Env, sysEnd: nat, base: nat, bytes: nat): seq<bool> {
    seq((bytes + SECTOR - 1) / SECTOR, i requires 0 <= i < (bytes + SECTOR - 1) / SECTOR =>
      DataSector(env, sysEnd, base + SECTOR * i, SectorLength(SECTOR * i, bytes)))
  }

  method ClassifySectors(env: Env, sysEnd: nat, base: nat, bytes: nat) returns (data: seq<bool>)
    ensures data == Flags(env, sysEnd, base, bytes)
  {
    data := [];
    var n := bytes / SECTOR + (if bytes % SECTOR != 0 then 1 else 0);
    while |data| < n
      invariant |data| <= n
      invariant forall i | 0 <= i < |data| ::
        SECTOR * i < bytes && data[i] == DataSector(env, sysEnd, base + SECTOR * i, SectorLength(SECTOR * i, bytes))
    {
      var s := SECTOR * |data|;
      var length := if s + SECTOR > bytes then bytes - s else SECTOR;
      var isData := base + s < sysEnd || env.isFile(base + s, length);
      data := data + [isData];
    }
  }

  /** What is known while a block is worked through, sector by sector. */
  ghost predicate Working(env: Env, src: Bytes, rs0: seq<Region>, rs: seq<Region>, base: nat, buf: Bytes,
                          data: seq<bool>, i: nat) {
    && |data| == (|buf| + SECTOR - 1) / SECTOR && i <= |data| && |buf| <= BLOCK && base % BLOCK == 0
    && PartOk(env, src, rs, base, buf, Min(SECTOR * i, |buf|))
    && SameBefore(rs0, rs, base) && Labelled(env, rs, base, BlockOf(src, base, |buf|), data, i)
  }

  lemma {:induction false} KeepStep(env: Env, src: Bytes, rs0: seq<Region>, rs: seq<Region>, base: nat, buf: Bytes,
                                    data: seq<bool>, i: nat)
    requires Working(env, src, rs0, rs, base, buf, data, i) && i < |data|
    requires SectorSeed(env, BlockOf(src, base, |buf|), data, i) == None
    ensures Working(env, src, rs0, rs, base, buf, data, i + 1)
  {
    hide SectorSeed;
    var s, blk := SECTOR * i, BlockOf(src, base, |buf|);
    KeepSector(env, src, rs, base, buf, s, SectorLength(s, |buf|));
    forall o | base <= o < base + |blk| && SectorOf(base, o) < i + 1
      ensures Label(rs, o) == SectorSeed(env, blk, data, SectorOf(base, o))
    {
      if SectorOf(base, o) == i {
        NoLabelPast(rs, base + s, o);
      }
    }
  }

  lemma {:induction false} ZeroStep(env: Env, src: Bytes, rs0: seq<Region>, rs: seq<Region>, rs': seq<Region>,
                                    base: nat, buf: Bytes, buf': Bytes, data: seq<bool>, i: nat, seed: Seed)
    requires Working(env, src, rs0, rs, base, buf, data, i) && i < |data|
    requires SectorSeed(env, BlockOf(src, base, |buf|), data, i) == Some(seed)
    requires var s := SECTOR * i; var n := SectorLength(s, |buf|);
      && buf' == buf[..s] + Zeros(n) + buf[s + n..] && Increasing(rs', base + s + n)
      && (forall o :: Label(rs', o) == if In(Region(base + s, n, seed), o) then Some(seed) else Label(rs, o))
      && Streamed(env, buf, seed, s, s + n)
    ensures Working(env, src, rs0, rs', base, buf', data, i + 1)
  {
    hide SectorSeed;
    var s, blk := SECTOR * i, BlockOf(src, base, |buf|);
    var n := SectorLength(s, |buf|);
    ZeroSector(env, src, rs, rs', base, buf, buf', s, n, seed);
    forall o | base <= o < base + |blk| && SectorOf(base, o) < i + 1
      ensures Label(rs', o) == SectorSeed(env, blk, data, SectorOf(base, o))
    {
      assert Label(rs', o) == if In(Region(base + s, n, seed), o) then Some(seed) else Label(rs, o);
      assert SectorOf(base, o) == i <==> In(Region(base + s, n, seed), o);
    }
  }

  lemma {:induction false} CountStart(env: Env, blk: Bytes, data: seq<bool>)
    requires |data| == (|blk| + SECTOR - 1) / SECTOR
    ensures Counted(env, blk, data, 0, 0, 0, 0)
  {
  }

  lemma {:induction false} CountStep(env: Env, blk: Bytes, data: seq<bool>, i: nat, d: nat, j: nat, z: nat)
    requires Counted(env, blk, data, i, d, j, z) && i < |data|
    ensures SECTOR * i <= |blk|
    ensures match KindOf(env, blk, data, i)
      case Kept => Counted(env, blk, data, i + 1, d + 1, j, z)
      case Dropped => Counted(env, blk, data, i + 1, d, j + 1, z)
      case Blank => Counted(env, blk, data, i + 1, d, j + 1, z + 1)
  {
    hide KindOf;
  }

  lemma {:induction false} DataKind(env: Env, blk: Bytes, data: seq<bool>, i: nat)
    requires i < |data| && SECTOR * i <= |blk| && data[i]
    ensures KindOf(env, blk, data, i) == Kept
  {
  }

  lemma {:induction false} FillerKind(env: Env, blk: Bytes, data: seq<bool>, i: nat)
    requires i < |data| && SECTOR * i < |blk| && SeedFor(env, blk, 0, |blk|).Some?
    ensures KindOf(env, blk, data, i) == if data[i] then Kept else Dropped
  {
  }

  /** A sector of a run outside files in a block that is not filler from end to end. */
  lemma {:induction false} RunKind(env: Env, blk: Bytes, data: seq<bool>, i: nat, start: nat, end: nat,
                                   seed: Option<Seed>)
    requires start <= i < end <= |data| && SECTOR * i < |blk| && SeedFor(env, blk, 0, |blk|) == None
    requires RunFrom(data, i) == start && RunTo(data, i) == end && !data[i]
    requires SECTOR * start <= Min(SECTOR * end, |blk|)
    requires seed == SeedFor(env, blk, SECTOR * start, Min(SECTOR * end, |blk|))
    ensures var s := SECTOR * i;
      KindOf(env, blk, data, i)
        == if seed.None? then if ZeroSectorAt(blk, i) then Blank else Kept
           else if Streamed(env, blk, seed.value, s, s + SectorLength(s, |blk|)) then Dropped else Kept
    ensures var s := SECTOR * i;
      SectorSeed(env, blk, data, i)
        == if seed.Some? && Streamed(env, blk, seed.value, s, s + SectorLength(s, |blk|)) then seed else None
  {
  }

  lemma {:induction false} SameSlice(a: Bytes, b: Bytes, from: nat, to: nat)
    requires from <= to <= |a| == |b| && a[from..to] == b[from..to]
    ensures forall k | from <= k < to :: a[k] == b[k]
  {
    forall k | from <= k < to ensures a[k] == b[k] {
      assert a[from..to][k - from] == b[from..to][k - from];
    }
  }

  /** Zeroes sector i and records it. */
  method DropSector(env: Env, ghost src: Bytes, ghost rs0: seq<Region>, rs: seq<Region>, base: nat, buf: Bytes,
                    ghost data: seq<bool>, i: nat, seed: Seed)
    returns (buf': Bytes, rs': seq<Region>)
    requires Working(env, src, rs0, rs, base, buf, data, i) && i < |data|
    requires SectorSeed(env, BlockOf(src, base, |buf|), data, i) == Some(seed)
    requires SECTOR * i <= |buf| && Streamed(env, buf, seed, SECTOR * i, SECTOR * i + SectorLength(SECTOR * i, |buf|))
    ensures |buf'| == |buf| && Working(env, src, rs0, rs', base, buf', data, i + 1)
    ensures forall k | 0 <= k < |buf| && k >= SECTOR * i + SectorLength(SECTOR * i, |buf|) :: buf'[k] == buf[k]
  {
    var s := SECTOR * i;
    var n := SectorLength(s, |buf|);
    rs' := Add(rs, Region(base + s, n, seed));
    buf' := buf[..s] + Zeros(n) + buf[s + n..];
    ZeroStep(env, src, rs0, rs, rs', base, buf, buf', data, i, seed);
  }

  /** A block that is filler from end to end: all sectors outside files are dropped. */
  method FillerBlock(env: Env, ghost src: Bytes, rs0: seq<Region>, base: nat, buf0: Bytes, data: seq<bool>, seed: Seed)
    returns (buf: Bytes, rs: seq<Region>, dataCount: nat, junkCount: nat)
    requires Working(env, src, rs0, rs0, base, buf0, data, 0) && SeedFor(env, buf0, 0, |buf0|) == Some(seed)
    requires Streamed(env, buf0, seed, 0, |buf0|)
    ensures |buf| == |buf0| && Working(env, src, rs0, rs, base, buf, data, |data|)
    ensures Counted(env, buf0, data, |data|, dataCount, junkCount, 0)
  {
    hide Working, Count, KindOf;
    buf, rs, dataCount, junkCount := buf0, rs0, 0, 0;
    BlockStart(env, src, rs0, base, buf0, data);
    CountStart(env, buf0, data);
    var i := 0;
    while i < |data|
      invariant 0 <= i <= |data| && |buf| == |buf0| && Counted(env, buf0, data, i, dataCount, junkCount, 0)
      invariant Working(env, src, rs0, rs, base, buf, data, i)
      invariant forall k | 0 <= k < |buf| && k >= SECTOR * i :: buf[k] == env.stream(seed, k)
      invariant base + |buf| <= |src| && BlockOf(src, base, |buf|) == buf0
    {
      SectorInside(env, src, rs0, rs, base, buf, data, i);
      CountStep(env, buf0, data, i, dataCount, junkCount, 0);
      FillerKind(env, buf0, data, i);
      if data[i] {
        KeepStep(env, src, rs0, rs, base, buf, data, i);
        dataCount := dataCount + 1;
      } else {
        buf, rs := DropSector(env, src, rs0, rs, base, buf, data, i, seed);
        junkCount := junkCount + 1;
      }
      i := i + 1;
    }
  }

  lemma {:induction false} SectorInside(env: Env, src: Bytes, rs0: seq<Region>, rs: seq<Region>, base: nat, buf: Bytes,
                                        data: seq<bool>, i: nat)
    requires Working(env, src, rs0, rs, base, buf, data, i) && i < |data|
    ensures SECTOR * i < |buf| && SectorLength(SECTOR * i, |buf|) > 0
    ensures SECTOR * i + SectorLength(SECTOR * i, |buf|) <= |buf|
    ensures SectorLength(SECTOR * i, |buf|) == SECTOR || SECTOR * i + SectorLength(SECTOR * i, |buf|) == |buf|
  {
  }

  /** At its start the buffer is the source's block. */
  lemma {:induction false} BlockStart(env: Env, src: Bytes, rs: seq<Region>, base: nat, buf: Bytes, data: seq<bool>)
    requires Working(env, src, rs, rs, base, buf, data, 0)
    ensures base + |buf| <= |src| && BlockOf(src, base, |buf|) == buf && |data| == (|buf| + SECTOR - 1) / SECTOR
  {
  }

  /** What is not yet worked through is still the source's. */
  lemma {:induction false} StillSource(env: Env, src: Bytes, rs0: seq<Region>, rs: seq<Region>, base: nat, buf: Bytes,
                                       data: seq<bool>, i: nat, to: nat)
    requires Working(env, src, rs0, rs, base, buf, data, i) && SECTOR * i <= to <= |buf|
    ensures base + |buf| <= |src| && buf[SECTOR * i..to] == BlockOf(src, base, |buf|)[SECTOR * i..to]
    ensures forall seed ::
      Streamed(env, buf, seed, SECTOR * i, to) <==> Streamed(env, BlockOf(src, base, |buf|), seed, SECTOR * i, to)
  {
    var blk := BlockOf(src, base, |buf|);
    forall k | SECTOR * i <= k < to ensures buf[k] == blk[k] {
    }
  }

  /** Whether a sector equals the stream at its position. */
  method Reproduced(env: Env, buf: Bytes, s: nat, n: nat, seed: Seed) returns (r: bool)
    requires s + n <= |buf|
    ensures r <==> Streamed(env, buf, seed, s, s + n)
  {
    var k := s;
    while k < s + n
      invariant s <= k <= s + n && Streamed(env, buf, seed, s, k)
    {
      if buf[k] != env.stream(seed, k) {
        return false;
      }
      k := k + 1;
    }
    return true;
  }

  method AllZero(buf: Bytes, s: nat, n: nat) returns (r: bool)
    requires s + n <= |buf|
    ensures r <==> forall k | s <= k < s + n :: buf[k] == 0
  {
    var k := s;
    while k < s + n
      invariant s <= k <= s + n && forall j | s <= j < k :: buf[j] == 0
    {
      if buf[k] != 0 {
        return false;
      }
      k := k + 1;
    }
    return true;
  }

  /** A run of sectors outside files in a mixed block: each sector is checked on its own against the run's
      seed and kept verbatim if it differs; without a seed everything is kept. */
  method MixedRun(env: Env, ghost src: Bytes, ghost rs0: seq<Region>, rs1: seq<Region>, base: nat, buf1: Bytes,
                  data: seq<bool>, start: nat, end: nat, seed: Option<Seed>, d0: nat, j0: nat, z0: nat)
    returns (buf: Bytes, rs: seq<Region>, dataCount: nat, junkCount: nat, zeroCount: nat)
    requires start <= end <= |data| && Working(env, src, rs0, rs1, base, buf1, data, start) && base + |buf1| <= |src|
    requires (forall i | start <= i < end :: !data[i]) && (start == 0 || data[start - 1])
    requires (end == |data| || data[end])
    requires var blk := BlockOf(src, base, |buf1|);
      && SeedFor(env, blk, 0, |blk|) == None
      && SECTOR * start <= Min(SECTOR * end, |blk|)
      && seed == SeedFor(env, blk, SECTOR * start, Min(SECTOR * end, |blk|))
    requires Counted(env, BlockOf(src, base, |buf1|), data, start, d0, j0, z0)
    ensures |buf| == |buf1| && Working(env, src, rs0, rs, base, buf, data, end)
    ensures Counted(env, BlockOf(src, base, |buf1|), data, end, dataCount, junkCount, zeroCount)
  {
    hide Working, Counted, KindOf, SectorSeed, Streamed, RunFrom, RunTo, SeedFor;
    buf, rs, dataCount, junkCount, zeroCount := buf1, rs1, d0, j0, z0;
    ghost var blk := BlockOf(src, base, |buf1|);
    var i := start;
    while i < end
      invariant start <= i <= end && |buf| == |buf1|
      invariant Counted(env, blk, data, i, dataCount, junkCount, zeroCount)
      invariant Working(env, src, rs0, rs, base, buf, data, i)
    {
      SectorInside(env, src, rs0, rs, base, buf, data, i);
      var s := SECTOR * i;
      var n := SectorLength(s, |buf|);
      RunBounds(data, start, end, i);
      StillSource(env, src, rs0, rs, base, buf, data, i, s + n);
      CountStep(env, blk, data, i, dataCount, junkCount, zeroCount);
      RunKind(env, blk, data, i, start, end, seed);
      if seed.Some? {
        var same := Reproduced(env, buf, s, n, seed.value);
        if same {
          buf, rs := DropSector(env, src, rs0, rs, base, buf, data, i, seed.value);
          junkCount := junkCount + 1;
        } else {
          KeepStep(env, src, rs0, rs, base, buf, data, i);
          dataCount := dataCount + 1;
        }
      } else {
        KeepStep(env, src, rs0, rs, base, buf, data, i);
        var zero := AllZero(buf, s, n);
        SameSlice(buf, blk, s, s + n);
        if zero {
          zeroCount, junkCount := zeroCount + 1, junkCount + 1;
        } else {
          dataCount := dataCount + 1;
        }
      }
      i := i + 1;
    }
  }

  /** The seed of a run, if the whole run agrees with its stream. */
  method RunSeed(env: Env, buf: Bytes, from: nat, to: nat) returns (seed: Option<Seed>)
    requires from <= to <= |buf|
    ensures seed == SeedFor(env, buf, from, to)
  {
    seed := None;
    if to - from >= SEED_BYTES {
      var found := env.getSeed(buf[from..to], from);
      if found.0 >= to - from {
        seed := Some(found.1);
      }
    }
  }

  /** A block with files in it, or with filler of several kinds. */
  method MixedBlock(env: Env, ghost src: Bytes, rs0: seq<Region>, base: nat, buf0: Bytes, data: seq<bool>)
    returns (buf: Bytes, rs: seq<Region>, dataCount: nat, junkCount: nat, zeroCount: nat)
    requires Working(env, src, rs0, rs0, base, buf0, data, 0) && SeedFor(env, buf0, 0, |buf0|) == None
    ensures |buf| == |buf0| && Working(env, src, rs0, rs, base, buf, data, |data|)
    ensures Counted(env, buf0, data, |data|, dataCount, junkCount, zeroCount)
  {
    hide Working, Count, KindOf;
    buf, rs, dataCount, junkCount, zeroCount := buf0, rs0, 0, 0, 0;
    BlockStart(env, src, rs0, base, buf0, data);
    CountStart(env, buf0, data);
    var i := 0;
    while i < |data|
      invariant 0 <= i <= |data| && |buf| == |buf0|
      invariant Counted(env, buf0, data, i, dataCount, junkCount, zeroCount)
      invariant base + |buf| <= |src| && BlockOf(src, base, |buf|) == buf0
      invariant (i < |data| && !data[i] ==> i == 0 || data[i - 1])
      invariant Working(env, src, rs0, rs, base, buf, data, i)
    {
      SectorInside(env, src, rs0, rs, base, buf, data, i);
      if data[i] {
        CountStep(env, buf0, data, i, dataCount, junkCount, zeroCount);
        DataKind(env, buf0, data, i);
        KeepStep(env, src, rs0, rs, base, buf, data, i);
        dataCount := dataCount + 1;
        i := i + 1;
      } else {
        var start := i;
        while i < |data| && !data[i]
          invariant start <= i <= |data| && forall j | start <= j < i :: !data[j]
        {
          i := i + 1;
        }
        var to := if SECTOR * i > |buf| then |buf| else SECTOR * i;
        StillSource(env, src, rs0, rs, base, buf, data, start, to);
        var seed := RunSeed(env, buf, SECTOR * start, to);
        buf, rs, dataCount, junkCount, zeroCount :=
          MixedRun(env, src, rs0, rs, base, buf, data, start, i, seed, dataCount, junkCount, zeroCount);
      }
    }
  }

  /** One block: as filler if all of it agrees with one stream, as a mixed block otherwise. */
  method ImportBlock(env: Env, ghost src: Bytes, rs0: seq<Region>, base: nat, buf0: Bytes, sysEnd: nat)
    returns (buf: Bytes, rs: seq<Region>, dataCount: nat, junkCount: nat, zeroCount: nat)
    requires EnvOk(env) && base % BLOCK == 0 && 0 < |buf0| <= BLOCK && PartOk(env, src, rs0, base, buf0, 0)
    ensures |buf| == |buf0| && PartOk(env, src, rs, base, buf, |buf|) && SameBefore(rs0, rs, base)
    ensures var data := Flags(env, sysEnd, base, |buf|);
      Labelled(env, rs, base, BlockOf(src, base, |buf|), data, |data|)
    ensures var data := Flags(env, sysEnd, base, |buf|);
      Counted(env, BlockOf(src, base, |buf|), data, |data|, dataCount, junkCount, zeroCount)
  {
    var seed: Option<Seed> := None;
    if |buf0| >= SEED_BYTES {
      var found := env.getSeed(buf0, 0);
      if found.0 >= |buf0| {
        seed := Some(found.1);
      }
    }
    assert buf0[0..|buf0|] == buf0;
    assert seed == SeedFor(env, buf0, 0, |buf0|);
    assert BlockOf(src, base, |buf0|) == buf0;
    var data := ClassifySectors(env, sysEnd, base, |buf0|);
    if seed.Some? {
      buf, rs, dataCount, junkCount := FillerBlock(env, src, rs0, base, buf0, data, seed.value);
      zeroCount := 0;
    } else {
      buf, rs, dataCount, junkCount, zeroCount := MixedBlock(env, src, rs0, base, buf0, data);
    }
  }

  /** The source as the import sees it: the file, zero-filled to the disc size. */
  function Source(file: Bytes, size: nat): Bytes {
    SliceOrZero(file, 0, size)
  }

  /** The seed under which byte o is dropped, from the source, the file map and the seeds alone. */
  ghost function JunkSeed(env: Env, src: Bytes, sysEnd: nat, o: nat): Option<Seed>
    requires o < |src|
  {
    var base := BLOCK * (o / BLOCK);
    var bytes := Min(BLOCK, |src| - base);
    SectorSeed(env, BlockOf(src, base, bytes), Flags(env, sysEnd, base, bytes), SectorOf(base, o))
  }

  /** What sector s of the disc counts as. */
  ghost function KindAt(env: Env, src: Bytes, sysEnd: nat, s: nat): Kind
    requires SECTOR * s < |src|
  {
    var base := BLOCK * (s / 16);
    var bytes := Min(BLOCK, |src| - base);
    KindOf(env, BlockOf(src, base, bytes), Flags(env, sysEnd, base, bytes), s % 16)
  }

  ghost function CountOn(env: Env, src: Bytes, sysEnd: nat, s: nat, kind: Kind): nat
    requires s <= (|src| + SECTOR - 1) / SECTOR
  {
    if s == 0 then 0
    else CountOn(env, src, sysEnd, s - 1, kind) + if KindAt(env, src, sysEnd, s - 1) == kind then 1 else 0
  }

  /** The counters after the first n sectors of the disc: those kept, those dropped or of zeros, those of zeros. */
  ghost predicate CountedOn(env: Env, src: Bytes, sysEnd: nat, n: nat, d: nat, j: nat, z: nat) {
    && n <= (|src| + SECTOR - 1) / SECTOR && d == CountOn(env, src, sysEnd, n, Kept)
    && j == CountOn(env, src, sysEnd, n, Dropped) + CountOn(env, src, sysEnd, n, Blank)
    && z == CountOn(env, src, sysEnd, n, Blank)
  }

  lemma {:induction false} CountBlock(env: Env, src: Bytes, sysEnd: nat, base: nat, n: nat, i: nat, kind: Kind)
    requires base % BLOCK == 0 && base + n <= |src| && 0 < n == Min(BLOCK, |src| - base)
    requires i <= (n + SECTOR - 1) / SECTOR
    ensures base / SECTOR + i <= (|src| + SECTOR - 1) / SECTOR
    ensures CountOn(env, src, sysEnd, base / SECTOR + i, kind)
      == CountOn(env, src, sysEnd, base / SECTOR, kind)
         + Count(env, BlockOf(src, base, n), Flags(env, sysEnd, base, n), i, kind)
  {
    hide KindAt, KindOf, Flags, BlockOf;
    SectorsOfBlock(base, i, n, |src|);
    if i > 0 {
      CountBlock(env, src, sysEnd, base, n, i - 1, kind);
      KindInBlock(env, src, sysEnd, base, n, i - 1);
      var s := base / SECTOR + i;
      assert s - 1 == base / SECTOR + (i - 1);
    }
  }

  lemma {:induction false} KindInBlock(env: Env, src: Bytes, sysEnd: nat, base: nat, n: nat, i: nat)
    requires base % BLOCK == 0 && base + n <= |src| && 0 < n == Min(BLOCK, |src| - base)
    requires i < (n + SECTOR - 1) / SECTOR
    ensures SECTOR * (base / SECTOR + i) < |src| && SECTOR * i <= n
    ensures KindAt(env, src, sysEnd, base / SECTOR + i)
      == KindOf(env, BlockOf(src, base, n), Flags(env, sysEnd, base, n), i)
  {
    hide KindOf;
    BlockSector(base, i);
    assert BLOCK == 16 * SECTOR && base == SECTOR * (base / SECTOR);
  }

  lemma {:induction false} SectorsOfBlock(base: nat, i: nat, n: nat, size: nat)
    requires base % BLOCK == 0 && i <= (n + SECTOR - 1) / SECTOR && base + n <= size
    ensures base / SECTOR + i <= (size + SECTOR - 1) / SECTOR
  {
  }

  lemma {:induction false} BlockSector(base: nat, i: nat)
    requires base % BLOCK == 0 && i < 16
    ensures BLOCK * ((base / SECTOR + i) / 16) == base && (base / SECTOR + i) % 16 == i
  {
  }

  /** Each sector counts as dropped iff it has a seed, as blank iff it is kept, lies outside system area and files and
      is all zeros, and as kept otherwise. */
  lemma {:induction false} KindExact(env: Env, src: Bytes, sysEnd: nat, s: nat)
    requires EnvOk(env) && 2048 * s < |src|
    ensures KindAt(env, src, sysEnd, s)
      == if JunkSeed(env, src, sysEnd, 2048 * s).Some? then Dropped
         else if !DataByte(env, sysEnd, |src|, 2048 * s)
              && forall o | 2048 * s <= o < 2048 * s + 2048 && o < |src| :: src[o] == 0 then Blank
         else Kept
  {
    hide DataByte, Flags, JunkSeed, KindOf, SectorSeed, BlockOf, EnvOk;
    var base := BLOCK * (s / 16);
    var n := Min(BLOCK, |src| - base);
    SeedOfSector(env, src, sysEnd, s);
    StartOfSector(s);
    KindInSource(env, src, sysEnd, s, base, n, s % 16, Flags(env, sysEnd, base, n));
  }

  lemma {:induction false} KindInSource(env: Env, src: Bytes, sysEnd: nat, s: nat, base: nat, n: nat, i: nat,
                                        data: seq<bool>)
    requires EnvOk(env) && 2048 * s < |src| && base + 2048 * i == 2048 * s && base + n <= |src| && n <= BLOCK
    requires 2048 * i < n && ((n == BLOCK && i < 16) || base + n == |src|) && i < |data| == (n + SECTOR - 1) / SECTOR
    requires JunkSeed(env, src, sysEnd, 2048 * s) == SectorSeed(env, BlockOf(src, base, n), data, i)
    requires data[i] <==> DataByte(env, sysEnd, |src|, 2048 * s)
    ensures KindOf(env, BlockOf(src, base, n), data, i)
      == if JunkSeed(env, src, sysEnd, 2048 * s).Some? then Dropped
         else if !DataByte(env, sysEnd, |src|, 2048 * s)
              && forall o | 2048 * s <= o < 2048 * s + 2048 && o < |src| :: src[o] == 0 then Blank
         else Kept
  {
    hide DataByte, JunkSeed, KindOf, SectorSeed, ZeroSectorAt, EnvOk;
    KindFromSeed(env, BlockOf(src, base, n), data, i);
    ZeroBytes(src, base, n, i);
  }

  lemma {:induction false} SeedOfSector(env: Env, src: Bytes, sysEnd: nat, s: nat)
    requires 2048 * s < |src|
    ensures var base := BLOCK * (s / 16);
      var bytes := Min(BLOCK, |src| - base);
      var data := Flags(env, sysEnd, base, bytes);
      && s % 16 < |data| == (bytes + SECTOR - 1) / SECTOR && 2048 * (s % 16) < bytes
      && JunkSeed(env, src, sysEnd, 2048 * s) == SectorSeed(env, BlockOf(src, base, bytes), data, s % 16)
      && (data[s % 16] <==> DataByte(env, sysEnd, |src|, 2048 * s))
  {
    hide SectorSeed, DataByte;
    StartOfSector(s);
    FlagsExact(env, |src|, sysEnd, 2048 * s);
  }

  lemma {:induction false} StartOfSector(s: nat)
    ensures BLOCK * (2048 * s / BLOCK) == BLOCK * (s / 16) && (2048 * s - BLOCK * (s / 16)) / 2048 == s % 16
    ensures BLOCK * (s / 16) + 2048 * (s % 16) == 2048 * s
  {
  }

  lemma {:induction false} ZeroBytes(src: Bytes, base: nat, n: nat, i: nat)
    requires base + n <= |src| && 2048 * i < n && ((n == BLOCK && i < 16) || base + n == |src|)
    ensures ZeroSectorAt(BlockOf(src, base, n), i)
      <==> forall o | base + 2048 * i <= o < base + 2048 * i + 2048 && o < |src| :: src[o] == 0
  {
    var blk := BlockOf(src, base, n);
    if ZeroSectorAt(blk, i) {
      forall o | base + 2048 * i <= o < base + 2048 * i + 2048 && o < |src| ensures src[o] == 0 {
        assert blk[o - base] == src[o];
      }
    }
  }

  /** A run with a seed has no sector that disagrees with it. */
  lemma {:induction false} KindFromSeed(env: Env, blk: Bytes, data: seq<bool>, i: nat)
    requires EnvOk(env) && i < |data| == (|blk| + SECTOR - 1) / SECTOR && SECTOR * i < |blk| && |blk| <= BLOCK
    ensures KindOf(env, blk, data, i)
      == if SectorSeed(env, blk, data, i).Some? then Dropped
         else if !data[i] && ZeroSectorAt(blk, i) then Blank else Kept
  {
    if !data[i] {
      RunAround(data, i);
      DroppedExactly(env, blk, data, RunFrom(data, i), RunTo(data, i), i);
    }
  }

  lemma {:induction false} RunAround(data: seq<bool>, i: nat)
    requires i < |data| && !data[i]
    ensures var first, end := RunFrom(data, i), RunTo(data, i);
      && first <= i < end <= |data| && (forall j | first <= j < end :: !data[j])
      && (first == 0 || data[first - 1]) && (end == |data| || data[end])
  {
    RunDown(data, i);
    RunUp(data, i);
  }

  lemma {:induction false} RunDown(data: seq<bool>, i: nat)
    requires i <= |data|
    ensures var first := RunFrom(data, i);
      first <= i && (forall j | first <= j < i :: !data[j]) && (first == 0 || data[first - 1])
  {
    if i > 0 && !data[i - 1] {
      RunDown(data, i - 1);
    }
  }

  lemma {:induction false} RunUp(data: seq<bool>, i: nat)
    requires i <= |data|
    ensures var end := RunTo(data, i);
      i <= end <= |data| && (forall j | i <= j < end :: !data[j]) && (end == |data| || data[end])
    decreases |data| - i
  {
    if i < |data| && !data[i] {
      RunUp(data, i + 1);
    }
  }

  /** Byte o lies in a sector of the system area or of a file. */
  ghost predicate DataByte(env: Env, sysEnd: nat, size: nat, o: nat)
    requires o < size
  {
    var s := 2048 * (o / 2048);
    s < sysEnd || env.isFile(s, if size - s < 2048 then size - s else 2048)
  }

  /** The flags of a block mark exactly the sectors of the system area and of files. */
  lemma {:induction false} FlagsExact(env: Env, size: nat, sysEnd: nat, o: nat)
    requires o < size
    ensures var base := 0x8000 * (o / 0x8000);
      var flags := Flags(env, sysEnd, base, if size - base < 0x8000 then size - base else 0x8000);
      (o - base) / 2048 < |flags| && (flags[(o - base) / 2048] <==> DataByte(env, sysEnd, size, o))
  {
    SameSectorStart(BLOCK * (o / BLOCK), o);
  }

  /** Bytes of the system area and of files have no seed. */
  lemma {:induction false} DataHasNoSeed(env: Env, src: Bytes, sysEnd: nat, o: nat)
    requires o < |src| && DataByte(env, sysEnd, |src|, o)
    ensures JunkSeed(env, src, sysEnd, o) == None
  {
    FlagsExact(env, |src|, sysEnd, o);
  }

  lemma {:induction false} SameSectorStart(base: nat, o: nat)
    requires base % BLOCK == 0 && base <= o
    ensures SECTOR * (o / SECTOR) == base + SECTOR * SectorOf(base, o)
  {
    var k, b := o - base, base / BLOCK;
    assert base == BLOCK * b;
    assert o == (16 * b + k / SECTOR) * SECTOR + k % SECTOR;
    DivModUnique(o, SECTOR, 16 * b + k / SECTOR, k % SECTOR);
  }

  /** ngcw_import_gc: refilling the recorded regions turns the image back into the source; what is recorded
      for each byte is exactly what its block, its sector and the file map call for; regions are disjoint and
      increasing; sectors of the system area and of files are verbatim and never recorded. */
  method ImportGameCube(env: Env, file: Bytes, size: nat, sysEnd: nat)
    returns (out: Bytes, rs: seq<Region>, dataCount: nat, junkCount: nat, zeroCount: nat)
    requires EnvOk(env)
    ensures |out| == size && |Source(file, size)| == size && ImageOk(env, Source(file, size), rs, out)
    ensures forall o | 0 <= o < size :: Label(rs, o) == JunkSeed(env, Source(file, size), sysEnd, o)
    ensures forall o | 0 <= o < size && DataByte(env, sysEnd, size, o) ::
      Label(rs, o) == None && out[o] == Source(file, size)[o]
    ensures CountedOn(env, Source(file, size), sysEnd, (size + SECTOR - 1) / SECTOR, dataCount, junkCount, zeroCount)
  {
    hide EnvOk, CountedOn, JunkSeed, DataByte, Imported, ImageOk;
    ghost var src := Source(file, size);
    out, rs, dataCount, junkCount, zeroCount := [], [], 0, 0, 0;
    NothingImported(env, src, sysEnd);
    hide Source;
    var at := 0;
    while at < size
      invariant at % BLOCK == 0 && (at <= size ==> |out| == at) && (at > size ==> |out| == size) && |src| == size
      invariant Imported(env, src, sysEnd, out, rs, dataCount, junkCount, zeroCount)
      decreases size - at
    {
      out, rs, dataCount, junkCount, zeroCount :=
        ImportNext(env, file, size, sysEnd, at, out, rs, dataCount, junkCount, zeroCount);
      at := at + BLOCK;
    }
    AllImported(env, src, sysEnd, out, rs, dataCount, junkCount, zeroCount);
  }

  /** The image so far: refilled it is the source so far, labelled and counted as it should be. */
  ghost predicate Imported(env: Env, src: Bytes, sysEnd: nat, out: Bytes, rs: seq<Region>, dataCount: nat,
                           junkCount: nat, zeroCount: nat) {
    && ImageOk(env, src, rs, out) && (forall o | 0 <= o < |out| :: Label(rs, o) == JunkSeed(env, src, sysEnd, o))
    && CountedOn(env, src, sysEnd, (|out| + SECTOR - 1) / SECTOR, dataCount, junkCount, zeroCount)
  }

  lemma {:induction false} NothingImported(env: Env, src: Bytes, sysEnd: nat)
    ensures Imported(env, src, sysEnd, [], [], 0, 0, 0)
  {
  }

  lemma {:induction false} AllImported(env: Env, src: Bytes, sysEnd: nat, out: Bytes, rs: seq<Region>, d: nat, j: nat,
                                       z: nat)
    requires |out| == |src| && Imported(env, src, sysEnd, out, rs, d, j, z)
    ensures ImageOk(env, src, rs, out) && CountedOn(env, src, sysEnd, (|src| + SECTOR - 1) / SECTOR, d, j, z)
    ensures forall o | 0 <= o < |src| :: Label(rs, o) == JunkSeed(env, src, sysEnd, o)
    ensures forall o | 0 <= o < |src| && DataByte(env, sysEnd, |src|, o) :: Label(rs, o) == None && out[o] == src[o]
  {
    hide CountedOn, JunkSeed, DataByte;
    DataVerbatim(env, src, rs, out, sysEnd);
  }

  /** One block of the disc. */
  method ImportNext(env: Env, file: Bytes, size: nat, sysEnd: nat, at: nat, out0: Bytes, rs0: seq<Region>, d0: nat,
                    j0: nat, z0: nat)
    returns (out: Bytes, rs: seq<Region>, d: nat, j: nat, z: nat)
    requires EnvOk(env) && at % BLOCK == 0 && |out0| == at < size && |Source(file, size)| == size
    requires Imported(env, Source(file, size), sysEnd, out0, rs0, d0, j0, z0)
    ensures |out| == if at + BLOCK > size then size else at + BLOCK
    ensures Imported(env, Source(file, size), sysEnd, out, rs, d, j, z)
  {
    hide ImageOk, PartOk, EnvOk, Labelled, SameBefore, JunkSeed, Label, Flags, BlockOf, Source, SliceOrZero;
    ghost var src := Source(file, size);
    var bytes := if at + BLOCK > size then size - at else BLOCK;
    var buf := SliceOrZero(file, at, bytes);
    StartBlock(env, file, size, src, rs0, out0, at, bytes);
    buf, rs, d, j, z := ImportBlock(env, src, rs0, at, buf, sysEnd);
    JoinBlock(env, src, rs0, rs, out0, buf, sysEnd);
    JoinCounts(env, src, sysEnd, at, |buf|, d0, j0, z0, d, j, z);
    out, d, j, z := out0 + buf, d0 + d, j0 + j, z0 + z;
  }

  lemma {:induction false} DataVerbatim(env: Env, src: Bytes, rs: seq<Region>, out: Bytes, sysEnd: nat)
    requires ImageOk(env, src, rs, out) && |out| == |src|
    requires forall o | 0 <= o < |src| :: Label(rs, o) == JunkSeed(env, src, sysEnd, o)
    ensures forall o | 0 <= o < |src| && DataByte(env, sysEnd, |src|, o) :: Label(rs, o) == None && out[o] == src[o]
  {
    hide JunkSeed, DataByte;
    forall o | 0 <= o < |src| && DataByte(env, sysEnd, |src|, o) ensures Label(rs, o) == None && out[o] == src[o] {
      DataHasNoSeed(env, src, sysEnd, o);
      assert ByteOk(env, src, rs, o, out[o]);
    }
  }

  lemma {:induction false} StartBlock(env: Env, file: Bytes, size: nat, src: Bytes, rs: seq<Region>, out: Bytes,
                                      at: nat, bytes: nat)
    requires src == Source(file, size) && |src| == size && at == |out| && at + bytes <= size
    requires ImageOk(env, src, rs, out)
    ensures |SliceOrZero(file, at, bytes)| == bytes && PartOk(env, src, rs, at, SliceOrZero(file, at, bytes), 0)
  {
    var buf := SliceOrZero(file, at, bytes);
    forall k | 0 <= k < bytes ensures buf[k] == src[at + k] {
    }
  }

  lemma {:induction false} JoinBlock(env: Env, src: Bytes, rs0: seq<Region>, rs: seq<Region>, out: Bytes, buf: Bytes,
                                     sysEnd: nat)
    requires ImageOk(env, src, rs0, out) && PartOk(env, src, rs, |out|, buf, |buf|) && SameBefore(rs0, rs, |out|)
    requires |out| % BLOCK == 0 && |buf| <= BLOCK && (|buf| == BLOCK || |out| + |buf| == |src|)
    requires |out| + |buf| <= |src|
    requires var data := Flags(env, sysEnd, |out|, |buf|);
      Labelled(env, rs, |out|, BlockOf(src, |out|, |buf|), data, |data|)
    requires forall o | 0 <= o < |out| :: Label(rs0, o) == JunkSeed(env, src, sysEnd, o)
    ensures ImageOk(env, src, rs, out + buf)
    ensures forall o | 0 <= o < |out + buf| :: Label(rs, o) == JunkSeed(env, src, sysEnd, o)
    ensures (|out + buf| + SECTOR - 1) / SECTOR == (|out| + SECTOR - 1) / SECTOR + (|buf| + SECTOR - 1) / SECTOR
  {
    hide PartOk, ImageOk, Label, JunkSeed, Labelled, Flags, BlockOf;
    SectorsAdd(|out|, |buf|);
    AppendBlock(env, src, rs0, rs, out, buf);
    forall o | 0 <= o < |out + buf| ensures Label(rs, o) == JunkSeed(env, src, sysEnd, o) {
      if o >= |out| {
        LabelInBlock(env, src, rs, |out|, |buf|, sysEnd, o);
      } else {
        assert Label(rs, o) == Label(rs0, o);
      }
    }
  }

  lemma {:induction false} SectorsAdd(a: nat, b: nat)
    requires a % BLOCK == 0
    ensures (a + b + SECTOR - 1) / SECTOR == (a + SECTOR - 1) / SECTOR + (b + SECTOR - 1) / SECTOR
  {
    var q, c := a / BLOCK * 16, b + SECTOR - 1;
    assert a == SECTOR * q;
    DivModUnique(a + c, SECTOR, q + c / SECTOR, c % SECTOR);
    DivModUnique(a + SECTOR - 1, SECTOR, q, SECTOR - 1);
  }

  lemma {:induction false} JoinCounts(env: Env, src: Bytes, sysEnd: nat, base: nat, n: nat, d0: nat, j0: nat, z0: nat,
                                      d: nat, j: nat, z: nat)
    requires base % BLOCK == 0 && base + n <= |src| && 0 < n == Min(BLOCK, |src| - base)
    requires CountedOn(env, src, sysEnd, (base + SECTOR - 1) / SECTOR, d0, j0, z0)
    requires var data := Flags(env, sysEnd, base, n); Counted(env, BlockOf(src, base, n), data, |data|, d, j, z)
    ensures CountedOn(env, src, sysEnd, (base + n + SECTOR - 1) / SECTOR, d0 + d, j0 + j, z0 + z)
  {
    hide CountOn, Count, BlockOf;
    var k := |Flags(env, sysEnd, base, n)|;
    SectorsAdd(base, n);
    SectorsAdd(base, 0);
    assert (base + SECTOR - 1) / SECTOR == base / SECTOR;
    CountBlock(env, src, sysEnd, base, n, k, Kept);
    CountBlock(env, src, sysEnd, base, n, k, Dropped);
    CountBlock(env, src, sysEnd, base, n, k, Blank);
  }

  lemma {:induction false} LabelInBlock(env: Env, src: Bytes, rs: seq<Region>, base: nat, n: nat, sysEnd: nat, o: nat)
    requires base % BLOCK == 0 && n <= BLOCK && (n == BLOCK || base + n == |src|) && base + n <= |src|
    requires var data := Flags(env, sysEnd, base, n); Labelled(env, rs, base, BlockOf(src, base, n), data, |data|)
    requires base <= o < base + n
    ensures Label(rs, o) == JunkSeed(env, src, sysEnd, o)
  {
    hide SectorSeed, Label;
    BlockStartOf(base, o);
    assert Min(BLOCK, |src| - base) == n;
    assert SectorOf(base, o) < |Flags(env, sysEnd, base, n)|;
  }

  lemma {:induction false} BlockStartOf(base: nat, o: nat)
    requires base % BLOCK == 0 && base <= o < base + BLOCK
    ensures BLOCK * (o / BLOCK) == base
  {
  }
}
