/** Reading a Wii U disc through the sector index of a WUX file. */
module Wux {
  import opened Blocks

  const SECTOR := 0x8000
  const WUX_MAGIC := 0x30585557
  const WUX_HEADER := 0x20
  const U32 := 0x1_0000_0000

  /** Entry i of the index table. */
  function IndexEntry(file: Bytes, i: nat): nat
    requires WUX_HEADER + 4 * (i + 1) <= |file|
  {
    FromLe(file[WUX_HEADER + 4 * i..WUX_HEADER + 4 * i + 4])
  }

  /** Data starts at the first sector boundary behind header and index. */
  function DataOffset(sectors: nat): nat {
    (WUX_HEADER + 4 * sectors + SECTOR - 1) / SECTOR * SECTOR
  }

  class Reader {
    const file: Bytes
    var isWux: bool
    var discSize: nat
    var index: seq<nat>
    var dataOffset: nat
    var sectorCount: nat

    constructor (file: Bytes)
      ensures this.file == file && !isWux
    {
      this.file, isWux, discSize, index, dataOffset, sectorCount := file, false, 0, [], 0, 0;
    }

    /** wux_init: true and all fields set for a readable WUX header with an index; false otherwise. */
    method Init() returns (ok: bool)
      modifies this
      ensures ok <==>
        && |file| >= WUX_HEADER && FromLe(file[..4]) == WUX_MAGIC && FromLe(file[8..12]) == SECTOR
        && |file| >= WUX_HEADER + 4 * (FromLe(file[16..24]) / SECTOR % U32)
      ensures ok ==>
        && isWux && discSize == FromLe(file[16..24]) && sectorCount == discSize / SECTOR % U32 == |index|
        && dataOffset == DataOffset(sectorCount) && |file| >= WUX_HEADER + 4 * sectorCount
        && forall i | 0 <= i < |index| :: index[i] == IndexEntry(file, i)
      ensures ok ==> Valid()
    {
      hide FromLe;
      if |file| < WUX_HEADER || FromLe(file[..4]) != WUX_MAGIC {
        return false;
      }
      isWux, discSize := true, FromLe(file[16..24]);
      var sectorSize := FromLe(file[8..12]);
      if sectorSize == 0 || sectorSize != SECTOR {
        return false;
      }
      sectorCount := discSize / sectorSize % U32;
      if |file| < WUX_HEADER + 4 * sectorCount {
        return false;
      }
      index := ReadIndex(file, sectorCount);
      var raw := WUX_HEADER + 4 * sectorCount;
      dataOffset := (raw + SECTOR - 1) / SECTOR * SECTOR;
      return true;
    }

    static method ReadIndex(file: Bytes, n: nat) returns (index: seq<nat>)
      requires |file| >= WUX_HEADER + 4 * n
      ensures |index| == n && forall i | 0 <= i < n :: index[i] == IndexEntry(file, i)
    {
      index := [];
      while |index| < n
        invariant |index| <= n && forall i | 0 <= i < |index| :: index[i] == IndexEntry(file, i)
      {
        index := index + [IndexEntry(file, |index|)];
      }
    }

    /** The sector count is that of the disc, cut to 32 bits. */
    ghost predicate Valid()
      reads this
    {
      isWux && sectorCount == |index| == discSize / SECTOR % U32
    }

    /** The sector that byte o is looked up in: its number cut to 32 bits. */
    function Sector(o: nat): nat {
      o / SECTOR % U32
    }

    /** Where byte o of the logical disc lies in the file. */
    function FileOffset(o: nat): nat
      requires Sector(o) < |index|
      reads this
    {
      dataOffset + index[Sector(o)] * SECTOR + o % SECTOR
    }

    /** Byte o of the logical disc is present in the file. */
    ghost predicate Present(o: nat)
      reads this
    {
      o < discSize && Sector(o) < |index| && FileOffset(o) < |file|
    }

    /** Bytes of the logical disc: whole sectors only. */
    function LogicalSize(): nat
      reads this
    {
      discSize / SECTOR * SECTOR
    }

    /** Every sector has an index entry of its own. */
    ghost predicate OwnSectors()
      reads this
    {
      forall o | 0 <= o < LogicalSize() :: Sector(o) == o / SECTOR && Sector(o) < |index|
    }

    /** No sector number is cut exactly on discs of less than 2^32 sectors; on any other some sector is looked
        up behind the index. */
    lemma {:induction false} OwnSectorsExact()
      requires Valid()
      ensures OwnSectors() <==> discSize / SECTOR < U32
    {
      if discSize / SECTOR < U32 {
        forall o | 0 <= o < LogicalSize() ensures Sector(o) == o / SECTOR && Sector(o) < |index| {
          assert o / SECTOR < discSize / SECTOR;
        }
      } else {
        var o := |index| * SECTOR;
        SectorStart(|index|);
        assert |index| < discSize / SECTOR;
        assert o < LogicalSize();
        assert !(Sector(o) == o / SECTOR && Sector(o) < |index|);
      }
    }

    /** A positioned read that may come up short by any amount but returns something before end of file. */
    method Pread(n: nat, at: nat, offered: nat) returns (out: Bytes)
      requires n > 0
      ensures |out| <= n && at + |out| <= if at < |file| then |file| else at
      ensures at < |file| ==> |out| > 0
      ensures forall k | 0 <= k < |out| :: out[k] == file[at + k]
    {
      if at >= |file| {
        return [];
      }
      var left := |file| - at;
      var m := if offered == 0 then 1 else offered;
      m := if m > n then n else m;
      m := if m > left then left else m;
      return file[at..at + m];
    }

    /** One round: translates the position and reads up to the end of its sector; nothing at the end. */
    method ReadPiece(cur: nat, limit: nat, offered: nat) returns (got: Bytes)
      requires Valid() && limit > 0
      ensures |got| <= limit && Agrees(got, cur)
      ensures got == [] ==> !Present(cur)
    {
      if cur >= discSize {
        return [];
      }
      var logical := cur / SECTOR % U32;
      var inSector := cur % SECTOR;
      if logical >= sectorCount {
        return [];
      }
      var at := dataOffset + index[logical] * SECTOR + inSector;
      var chunk := SECTOR - inSector;
      if chunk > limit {
        chunk := limit;
      }
      got := Pread(chunk, at, offered);
      forall o | cur <= o < cur + |got| ensures Present(o) && got[o - cur] == file[FileOffset(o)] {
        SameSector(cur, o - cur);
        WholeSector(cur, o, discSize);
      }
    }

    /** wiiu_reader_pread on a WUX, for any sequence of short reads underneath: what is returned is what the
        logical disc holds there, whatever sectors share their data; it ends only at the end of the request,
        of the logical disc, of the index or of the file's data. */
    method Read(count: nat, offset: nat, shorts: nat -> nat) returns (out: Option<Bytes>)
      requires Valid()
      ensures out.Some? ==> 0 < |out.value| <= count && Agrees(out.value, offset)
      ensures var n := if out.Some? then |out.value| else 0; n == count || !Present(offset + n)
      ensures Complete() && 0 < count && offset < LogicalSize() ==>
        out.Some? && |out.value| == if offset + count < LogicalSize() then count else LogicalSize() - offset
    {
      var buf: Bytes := [];
      var calls := 0;
      while |buf| < count
        invariant |buf| <= count && Agrees(buf, offset)
        decreases count - |buf|
      {
        var got := ReadPiece(offset + |buf|, count - |buf|, shorts(calls));
        calls := calls + 1;
        if |got| == 0 {
          break;
        }
        AgreesConcat(buf, got, offset);
        buf := buf + got;
      }
      if buf != [] {
        assert Present(offset + (|buf| - 1));
        PresentInside(offset + (|buf| - 1));
        return Some(buf);
      }
      return None;
    }

    /** The bytes are those of the logical disc from `offset` on. */
    ghost predicate Agrees(buf: Bytes, offset: nat)
      reads this
    {
      forall o {:trigger Present(o)} | offset <= o < offset + |buf| ::
        Present(o) && buf[o - offset] == file[FileOffset(o)]
    }

    /** Every byte of the logical disc is in the file. */
    ghost predicate Complete()
      reads this
    {
      forall o | 0 <= o < LogicalSize() :: Present(o)
    }

    /** A byte that is present lies in a whole sector. */
    lemma {:induction false} PresentInside(o: nat)
      requires Valid() && Present(o)
      ensures o < LogicalSize()
    {
      WholeSector(o, o, discSize);
    }

    lemma {:induction false} AgreesConcat(a: Bytes, b: Bytes, offset: nat)
      requires Agrees(a, offset) && Agrees(b, offset + |a|)
      ensures Agrees(a + b, offset)
    {
      var t := a + b;
      forall o | offset <= o < offset + |t| ensures Present(o) && t[o - offset] == file[FileOffset(o)] {
        if o < offset + |a| {
          assert Present(o) && t[o - offset] == a[o - offset];
        } else {
          assert Present(o) && t[o - offset] == b[o - (offset + |a|)];
        }
      }
    }
  }

  lemma {:induction false} SectorStart(k: nat)
    ensures k * SECTOR / SECTOR == k
  {
  }

  /** A sector other than that of the end of the disc lies on the disc as a whole. */
  lemma {:induction false} WholeSector(cur: nat, o: nat, size: nat)
    requires cur < size && o / SECTOR == cur / SECTOR && cur / SECTOR % U32 != size / SECTOR % U32
    ensures o < size && o < size / SECTOR * SECTOR
  {
    assert cur / SECTOR < size / SECTOR;
  }

  lemma {:induction false} SameSector(cur: nat, k: nat)
    requires cur % SECTOR + k < SECTOR
    ensures (cur + k) / SECTOR == cur / SECTOR && (cur + k) % SECTOR == cur % SECTOR + k
  {
  }

  // ----- reading back a file laid out as a WUX

  /** A WUX file: header, index, padding, and the distinct sectors one after another. */
  function Layout(index: seq<nat>, data: seq<Bytes>): Bytes {
    Le(0x30585557, 4) + Zeros(4) + Le(0x8000, 4) + Zeros(4) + Le(|index| * 0x8000, 8) + Zeros(8)
    + Entries(index) + Zeros(Padding(0x20 + 4 * |index|)) + Join(data)
  }

  function Entries(index: seq<nat>): Bytes {
    if index == [] then [] else Entries(index[..|index| - 1]) + Le(index[|index| - 1], 4)
  }

  /** Bytes missing to a multiple of the sector size. */
  function Padding(n: nat): (p: nat)
    ensures p < 0x8000 && (n + p) % 0x8000 == 0
  {
    (0x8000 - n % 0x8000) % 0x8000
  }

  ghost predicate LayoutOk(index: seq<nat>, data: seq<Bytes>) {
    && |index| < U32 && |data| < U32 && AllSized(data, 0x8000)
    && forall i | 0 <= i < |index| :: index[i] < |data|
  }

  lemma {:induction false} EntriesAt(index: seq<nat>, i: nat)
    requires i < |index| && forall j | 0 <= j < |index| :: index[j] < U32
    ensures |Entries(index)| == 4 * |index| && FromLe(Entries(index)[4 * i..4 * i + 4]) == index[i]
  {
    var n := |index| - 1;
    var rest, last := Entries(index[..n]), Le(index[n], 4);
    assert Pow256(4) == U32 by { assert Pow256(2) == 0x1_0000; }
    LeRoundTrip(index[n], 4);
    if n > 0 {
      EntriesAt(index[..n], if i < n then i else 0);
    }
    if i < n {
      assert Entries(index)[4 * i..4 * i + 4] == rest[4 * i..4 * i + 4];
    } else {
      assert Entries(index)[4 * i..4 * i + 4] == last;
    }
  }

  lemma {:induction false} EntriesSize(index: seq<nat>)
    ensures |Entries(index)| == 4 * |index|
  {
    if index != [] {
      EntriesSize(index[..|index| - 1]);
      LeLength(index[|index| - 1], 4);
    }
  }

  lemma {:induction false} Parts(a: Bytes, b: Bytes, c: Bytes, d: Bytes, e: Bytes, f: Bytes, g: Bytes, h: Bytes,
                                 k: Bytes)
    requires |a| == |b| == |c| == |d| == 4 && |e| == |f| == 8
    ensures var s := a + b + c + d + e + f + g + h + k;
      && |s| == 0x20 + |g| + |h| + |k| && s[..4] == a && s[8..12] == c && s[16..24] == e
      && s[0x20..0x20 + |g|] == g && s[0x20 + |g| + |h|..] == k
  {
  }

  lemma {:induction false} HeaderValues(n: nat)
    requires n < U32
    ensures |Le(0x30585557, 4)| == |Le(0x8000, 4)| == 4 && |Le(n * 0x8000, 8)| == 8
    ensures FromLe(Le(0x30585557, 4)) == 0x30585557 && FromLe(Le(0x8000, 4)) == 0x8000
    ensures FromLe(Le(n * 0x8000, 8)) == n * 0x8000
  {
    assert Pow256(4) == U32 by { assert Pow256(2) == 0x1_0000; }
    assert Pow256(8) == U32 * U32 by { assert Pow256(6) == 0x1_0000 * U32; }
    LeRoundTrip(0x30585557, 4);
    LeRoundTrip(0x8000, 4);
    LeRoundTrip(n * 0x8000, 8);
  }

  /** The fields of such a file, where the reader looks for them. */
  lemma {:induction false} LayoutFields(index: seq<nat>, data: seq<Bytes>)
    requires LayoutOk(index, data)
    ensures var file := Layout(index, data); var n := |index|;
      && |file| >= 0x20 + 4 * n && FromLe(file[..4]) == 0x30585557 && FromLe(file[8..12]) == 0x8000
      && FromLe(file[16..24]) == n * 0x8000 && file[0x20..0x20 + 4 * n] == Entries(index)
      && DataOffset(n) <= |file| && file[DataOffset(n)..] == Join(data)
  {
    hide Le, FromLe, Entries, Padding, Join, Pow256, DataOffset;
    var n := |index|;
    HeaderValues(n);
    EntriesSize(index);
    PaddedSize(n);
    Parts(Le(0x30585557, 4), Zeros(4), Le(0x8000, 4), Zeros(4), Le(n * 0x8000, 8), Zeros(8), Entries(index),
          Zeros(Padding(0x20 + 4 * n)), Join(data));
  }

  lemma {:induction false} PaddedSize(n: nat)
    ensures 0x20 + 4 * n + Padding(0x20 + 4 * n) == DataOffset(n)
  {
  }

  /** Byte o of the disc that such a file stands for. */
  function DiscByte(index: seq<nat>, data: seq<Bytes>, o: nat): byte
    requires o / 0x8000 < |index| && index[o / 0x8000] < |data| && |data[index[o / 0x8000]]| == 0x8000
  {
    data[index[o / 0x8000]][o % 0x8000]
  }

  lemma {:induction false} LayoutByte(index: seq<nat>, data: seq<Bytes>, o: nat)
    requires LayoutOk(index, data) && o < |index| * 0x8000
    ensures o / 0x8000 < |index|
    ensures var at := DataOffset(|index|) + index[o / 0x8000] * 0x8000 + o % 0x8000;
      at < |Layout(index, data)| && Layout(index, data)[at] == DiscByte(index, data, o)
  {
    hide Layout, Join, Entries;
    LayoutFields(index, data);
    var file, start, i := Layout(index, data), DataOffset(|index|), index[o / 0x8000];
    JoinLength(data, 0x8000);
    JoinAt(data, i);
    assert file[start..][i * 0x8000 + o % 0x8000] == Join(data)[i * 0x8000 + o % 0x8000];
  }

  lemma {:induction false} JoinAt(data: seq<Bytes>, i: nat)
    requires AllSized(data, 0x8000) && i < |data|
    ensures |Join(data)| == |data| * 0x8000 && Join(data)[i * 0x8000..i * 0x8000 + 0x8000] == data[i]
    ensures forall k | 0 <= k < 0x8000 :: Join(data)[i * 0x8000 + k] == data[i][k]
  {
    JoinLength(data, 0x8000);
    var s := Join(data);
    if i > 0 {
      JoinAt(data[1..], i - 1);
      assert s[0x8000..] == Join(data[1..]);
      assert s[i * 0x8000..i * 0x8000 + 0x8000] == s[0x8000..][(i - 1) * 0x8000..(i - 1) * 0x8000 + 0x8000];
    } else {
      assert s[..0x8000] == data[0];
    }
    forall k | 0 <= k < 0x8000 ensures s[i * 0x8000 + k] == data[i][k] {
      assert s[i * 0x8000..i * 0x8000 + 0x8000][k] == s[i * 0x8000 + k];
    }
  }

  /** The reader shows exactly the bytes of the disc. */
  ghost predicate Opened(r: Reader, index: seq<nat>, data: seq<Bytes>)
    reads r
  {
    && LayoutOk(index, data) && r.Valid() && r.LogicalSize() == |index| * 0x8000
    && (forall o | 0 <= o < |index| * 0x8000 :: OpenedAt(r, index, data, o))
  }

  ghost predicate OpenedAt(r: Reader, index: seq<nat>, data: seq<Bytes>, o: nat)
    requires LayoutOk(index, data)
    reads r
  {
    r.Present(o) && o / 0x8000 < |index| && r.file[r.FileOffset(o)] == DiscByte(index, data, o)
  }

  method OpenLayout(index: seq<nat>, data: seq<Bytes>) returns (r: Reader)
    requires LayoutOk(index, data)
    ensures Opened(r, index, data)
  {
    hide Layout, FromLe, DiscByte, OpenedAt, DataOffset;
    r := new Reader(Layout(index, data));
    LayoutFields(index, data);
    SectorStart(|index|);
    var ok := r.Init();
    assert ok && r.discSize == |index| * 0x8000;
    forall i | 0 <= i < |index| ensures r.index[i] == index[i] {
      IndexAt(index, data, i);
    }
    assert r.index == index;
    forall o | 0 <= o < |index| * 0x8000 ensures OpenedAt(r, index, data, o) {
      ByteOpened(r, index, data, o);
    }
  }

  lemma {:induction false} ByteOpened(r: Reader, index: seq<nat>, data: seq<Bytes>, o: nat)
    requires LayoutOk(index, data) && o < |index| * 0x8000 && r.file == Layout(index, data) && r.index == index
    requires r.discSize == |index| * 0x8000 && r.dataOffset == DataOffset(|index|)
    ensures OpenedAt(r, index, data, o)
  {
    hide Layout, DiscByte, DataOffset;
    LayoutByte(index, data, o);
  }

  /** Opening such a file and reading from it gives the bytes of the disc, whatever the short reads underneath. */
  method ReadLayout(index: seq<nat>, data: seq<Bytes>, count: nat, offset: nat, shorts: nat -> nat)
    returns (out: Option<Bytes>)
    requires LayoutOk(index, data)
    ensures out.None? <==> count == 0 || offset >= |index| * 0x8000
    ensures out.Some? ==>
      |out.value| == if offset + count < |index| * 0x8000 then count else |index| * 0x8000 - offset
    ensures out.Some? ==> forall k | 0 <= k < |out.value| ::
      (offset + k) / 0x8000 < |index| && out.value[k] == DiscByte(index, data, offset + k)
  {
    hide DiscByte;
    var r := OpenLayout(index, data);
    assert r.Complete() by {
      forall o | 0 <= o < r.LogicalSize() ensures r.Present(o) {
        assert OpenedAt(r, index, data, o);
      }
    }
    out := r.Read(count, offset, shorts);
    if out.Some? {
      assert r.Present(offset);
      r.PresentInside(offset);
      forall k | 0 <= k < |out.value|
        ensures (offset + k) / 0x8000 < |index| && out.value[k] == DiscByte(index, data, offset + k)
      {
        assert r.Present(offset + k);
        r.PresentInside(offset + k);
        assert OpenedAt(r, index, data, offset + k);
      }
    }
  }

  lemma {:induction false} IndexAt(index: seq<nat>, data: seq<Bytes>, i: nat)
    requires LayoutOk(index, data) && i < |index|
    ensures 0x20 + 4 * (i + 1) <= |Layout(index, data)| && IndexEntry(Layout(index, data), i) == index[i]
  {
    hide Layout, Entries, FromLe;
    LayoutFields(index, data);
    EntriesAt(index, i);
    EntriesSize(index);
    var file := Layout(index, data);
    assert file[0x20 + 4 * i..0x20 + 4 * i + 4] == file[0x20..0x20 + 4 * |index|][4 * i..4 * i + 4];
  }
}
