/** The FAT32 driver: sector buffers patched in place over a disk of sectors. */
module Fat32Volume {
  import opened Bytes
  import opened Fat32Layout
  import opened Fat32Chains
  import opened Fat32Directory
  import opened Fat32Files
  import opened Fat32Operations
  import opened Fat32Theorems

  /** `b` is `was` with the first `n` bytes of `content` copied in at `at`. */
  ghost predicate CopiedUpTo(was: seq<byte>, b: seq<byte>, content: seq<byte>, at: nat, n: nat) {
    && n <= |content| && at + n <= |was| == |b|
    && b[..at] == was[..at] && b[at..at + n] == content[..n] && b[at + n..] == was[at + n..]
  }

  lemma CopiedMore(was: seq<byte>, b: seq<byte>, r: seq<byte>, content: seq<byte>, at: nat, n: nat)
    requires CopiedUpTo(was, b, content, at, n) && |r| == |b| && n + 512 <= |content| && at + n + 512 <= |b|
    requires r[..at + n] == b[..at + n] && r[at + n + 512..] == b[at + n + 512..]
    requires r[at + n..at + n + 512] == content[n..n + 512]
    ensures CopiedUpTo(was, r, content, at, n + 512)
  {
    assert r[..at] == r[..at + n][..at] && b[..at] == b[..at + n][..at];
    assert r[at..at + n + 512] == r[..at + n][at..] + r[at + n..at + n + 512];
    assert b[at..at + n] == b[..at + n][at..];
    assert content[..n + 512] == content[..n] + content[n..n + 512];
    assert b[at + n + 512..] == b[at + n..][512..] && was[at + n + 512..] == was[at + n..][512..];
  }

  /** The first word of a table sector, from word `i` on, whose entry is a free cluster; 128 if none. */
  function ScanFrom(sec: seq<byte>, base: nat, i: nat): (r: nat)
    requires |sec| == 512
    ensures r <= 128 && (r < 128 ==> 2 <= base + r)
    decreases |sec| - i
  {
    if i >= 128 then 128
    else if 2 <= base + i && Link(GetWord(sec, i * 4)) == 0 then i
    else ScanFrom(sec, base, i + 1)
  }

  /** `sec` holds entries `128 * s` to `128 * s + 127` of the table. */
  ghost predicate HoldsEntries(raw: seq<word>, sec: seq<byte>, s: nat)
    requires |sec| == 512
  {
    forall j: nat | j < 128 :: 128 * s + j < |raw| && GetWord(sec, j * 4) == raw[128 * s + j]
  }

  lemma SectorHolds(g: Bpb, d: seq<Sector>, s: nat)
    requires g.Fits(|d|) && s < g.sectorsPerFat && g.FatLba() + s < |d|
    ensures HoldsEntries(ViewOf(g, d).raw, d[g.FatLba() + s], s)
  {
    forall j: nat | j < 128
      ensures 128 * s + j < g.Entries() && GetWord(d[g.FatLba() + s], j * 4) == ViewOf(g, d).raw[128 * s + j]
    {
      TableCell(g, d, s, j);
    }
  }

  /** Scanning sector by sector visits the entries in order. */
  lemma {:induction false} ScanIsFirstFree(raw: seq<word>, sec: seq<byte>, s: nat, i: nat)
    requires |sec| == 512 && HoldsEntries(raw, sec, s) && i <= 128
    ensures var r := ScanFrom(sec, 128 * s, i);
      FirstFree(raw, 128 * s + i) == if r < 128 then 128 * s + r else FirstFree(raw, 128 * s + 128)
    decreases 128 - i
  {
    if i < 128 {
      assert 128 * s + i < |raw| && GetWord(sec, i * 4) == raw[128 * s + i];
      ScanIsFirstFree(raw, sec, s, i + 1);
    }
  }

  lemma ScanExact(raw: seq<word>, sec: seq<byte>, s: nat)
    requires |sec| == 512 && HoldsEntries(raw, sec, s)
    ensures var r := ScanFrom(sec, 128 * s, 0);
      FirstFree(raw, 128 * s) == if r < 128 then 128 * s + r else FirstFree(raw, 128 * (s + 1))
  {
    ScanIsFirstFree(raw, sec, s, 0);
  }

  /** Where the byte offset of a table entry falls. */
  lemma EntryPlace(cluster: nat)
    ensures cluster * 4 / 512 == cluster / 128 && cluster * 4 % 512 == cluster % 128 * 4
  {}

  lemma SlotOffset(k: int)
    ensures 32 * k % 32 == 0 && 32 * k / 32 == k
  {}

  /** Writing one sector of a directory buffer to its place flushes it. */
  lemma FlushEffect(g: Bpb, d: seq<Sector>, dir: seq<byte>, k: nat)
    requires g.Fits(|d|) && Mirrored(g, d) && Shape(g, ViewOf(g, d))
    requires |dir| == g.ClusterSize() && k < Slots(dir)
    ensures g.ClusterLba(g.rootCluster) + 32 * k / 512 < |d| && 32 * k / 512 * 512 + 512 <= g.ClusterSize()
    ensures var sec := 32 * k / 512;
      var r := d[g.ClusterLba(g.rootCluster) + sec := dir[sec * 512..sec * 512 + 512]];
      Mirrored(g, r) && ViewOf(g, r) == Flush(g, ViewOf(g, d), dir, k) && SameOutside(g, d, r)
  {
    FatBounds(g, |d|);
    ClusterBounds(g, |d|, g.rootCluster);
    var c, sec, was := g.rootCluster, 32 * k / 512, Dir(g, ViewOf(g, d));
    SlotSector(k, g.sectorsPerCluster);
    var r := d[g.ClusterLba(c) + sec := dir[sec * 512..sec * 512 + 512]];
    var next := WithSector(was, dir, sec);
    forall i: nat | i < g.sectorsPerCluster
      ensures r[g.ClusterLba(c) + i] == next[i * 512..i * 512 + 512]
    {
      ViewSector(g, d, c, i);
      WithSectorAt(was, dir, sec, i);
    }
    ClusterWriteView(g, d, r, c, next);
    if g.fatCount > 1 {
      CopiesUntouched(g, d, r, g.sectorsPerFat);
    }
  }

  lemma MarkDeleted(dir: seq<byte>, k: nat)
    requires k < Slots(dir)
    ensures dir[32 * k := DELETED] == SetSlot(dir, k, Slot(dir, k)[0 := DELETED])
  {}

  /** The whole clusters that hold `size` bytes: what a reader's buffer must have room for. */
  function RoundUp(size: nat, n: nat): (r: nat)
    requires n > 0
    ensures size <= r < size + n
    decreases size
  {
    if size == 0 then 0 else n + if size <= n then 0 else RoundUp(size - n, n)
  }

  lemma {:induction false} RoundUpStep(size: nat, n: nat, i: nat)
    requires n > 0 && Times(i, n) < size
    ensures Times(i, n) + n <= RoundUp(size, n)
    decreases i
  {
    if i > 0 {
      RoundUpStep(size - n, n, i - 1);
    }
  }

  /** It is the size of the fewest clusters that hold `size` bytes. */
  lemma {:induction false} RoundUpExact(size: nat, n: nat, k: nat)
    requires n > 0 && size <= Times(k, n) && (k > 0 ==> Times(k - 1, n) < size)
    ensures RoundUp(size, n) == Times(k, n)
    decreases k
  {
    if k > 1 {
      RoundUpExact(size - n, n, k - 1);
    }
  }

  /** A 32-bit unsigned value cast to a signed int. */
  function ToInt32(w: word): int {
    if w < 0x8000_0000 then w else w - 0x1_0000_0000
  }

  lemma SameTail(b: seq<byte>, r: seq<byte>, m: nat, end: nat)
    requires m <= end <= |b| == |r| && r[m..] == b[m..]
    ensures r[end..] == b[end..]
  {
    assert r[end..] == r[m..][end - m..] && b[end..] == b[m..][end - m..];
  }

  lemma SamePrefix(b: seq<byte>, r: seq<byte>, m: nat, size: nat)
    requires size <= m <= |b| && m <= |r| && b[..m] == r[..m]
    ensures b[..size] == r[..size]
  {
    assert b[..size] == b[..m][..size] && r[..size] == r[..m][..size];
  }

  /** Where the read loop stands: `i` clusters of the chain are in the buffer. */
  ghost predicate Reading(g: Bpb, v: View, ch: seq<nat>, size: nat, was: seq<byte>, b: seq<byte>, i: nat, cluster: nat, pos: nat, remaining: nat) {
    var n, all := g.ClusterSize(), Concat(v.clus, ch);
    && n > 0 && i <= |ch| && IsChain(v.raw, cluster, ch[i..])
    && pos + remaining == size && (remaining > 0 ==> pos == Times(i, n))
    && pos <= Times(i, n) <= RoundUp(size, n) <= |b| == |was| && Times(i, n) <= |all|
    && b[..Times(i, n)] == all[..Times(i, n)]
    && b[RoundUp(size, n)..] == was[RoundUp(size, n)..]
  }

  /** When the loop ends, all bytes of the file are there. */
  lemma ReadingDone(g: Bpb, v: View, first: nat, ch: seq<nat>, size: nat, was: seq<byte>, b: seq<byte>, i: nat, cluster: nat, pos: nat, remaining: nat)
    requires Reading(g, v, ch, size, was, b, i, cluster, pos, remaining) && !(IsCluster(cluster) && remaining > 0)
    requires size <= Times(|ch|, g.ClusterSize())
    ensures size <= |Concat(v.clus, ch)| && b[..size] == Concat(v.clus, ch)[..size]
    ensures b[RoundUp(size, g.ClusterSize())..] == was[RoundUp(size, g.ClusterSize())..]
  {
    assert remaining > 0 ==> i == |ch|;
    SamePrefix(b, Concat(v.clus, ch), Times(i, g.ClusterSize()), size);
  }

  class Volume {
    const disk: array<Sector>
    const bpb: Bpb
    const fatStart: nat
    const dataStart: nat
    const rootCluster: nat
    /** The cluster chain of each directory slot; `ChainsDetermined` shows the disk fixes it. */
    ghost var chains: seq<seq<nat>>

    /** Reads the boot sector; a bad signature leaves the table and data positions unset. */
    constructor (disk: array<Sector>)
      requires FAT32_START_LBA < disk.Length
      ensures this.disk == disk && bpb == ParseBpb(disk[20480])
      ensures if disk[20480][66] in {0x28, 0x29}
        then FAT32_START_LBA + fatStart == bpb.FatLba() && FAT32_START_LBA + dataStart == bpb.DataLba() && rootCluster == bpb.rootCluster
        else fatStart == dataStart == rootCluster == 0
    {
      var buf := disk[FAT32_START_LBA];
      var b := ParseBpb(buf);
      this.disk := disk;
      bpb := b;
      fatStart := if SignatureOk(buf) then b.reservedSectors else 0;
      dataStart := if SignatureOk(buf) then b.reservedSectors + Times(b.fatCount, b.sectorsPerFat) else 0;
      rootCluster := if SignatureOk(buf) then b.rootCluster else 0;
      chains := [];
    }

    ghost predicate Mounted()
      reads disk
    {
      && bpb.Fits(disk.Length)
      && fatStart == bpb.reservedSectors
      && dataStart == fatStart + Times(bpb.fatCount, bpb.sectorsPerFat)
      && rootCluster == bpb.rootCluster
      && Mirrored(bpb, disk[..])
    }

    /** The table and clusters the disk holds now. */
    ghost function V(): View
      requires Mounted()
      reads disk
    {
      ViewOf(bpb, disk[..])
    }

    ghost predicate Valid()
      reads this, disk
    {
      Mounted() && WellFormed(bpb, V(), chains)
    }

    ghost function Contents(): map<FatName, seq<byte>>
      requires Valid()
      reads this, disk
    {
      Files(bpb, V(), chains)
    }

    // ----- sectors and clusters -----

    method ReadSector(lba: nat, buf: array<byte>, at: nat)
      requires FAT32_START_LBA + lba < disk.Length && at + 512 <= buf.Length
      modifies buf
      ensures buf[at..at + 512] == disk[FAT32_START_LBA + lba]
      ensures buf[..at] == old(buf[..at]) && buf[at + 512..] == old(buf[at + 512..])
    {
      forall k | 0 <= k < 512 {
        buf[at + k] := disk[FAT32_START_LBA + lba][k];
      }
    }

    method WriteSector(lba: nat, buf: array<byte>, at: nat)
      requires FAT32_START_LBA + lba < disk.Length && at + 512 <= buf.Length
      modifies disk
      ensures disk[..] == old(disk[..])[FAT32_START_LBA + lba := buf[at..at + 512]]
    {
      disk[FAT32_START_LBA + lba] := buf[at..at + 512];
    }

    method ReadCluster(c: nat, buf: array<byte>, at: nat)
      requires Mounted() && 2 <= c < bpb.Entries() && at + bpb.ClusterSize() <= buf.Length
      requires |V().clus[c]| == bpb.ClusterSize()
      modifies buf
      ensures buf[at..at + bpb.ClusterSize()] == V().clus[c]
      ensures buf[..at] == old(buf[..at]) && buf[at + bpb.ClusterSize()..] == old(buf[at + bpb.ClusterSize()..])
    {
      ClusterBounds(bpb, disk.Length, c);
      var lba := dataStart + Times(c - 2, bpb.sectorsPerCluster);
      ghost var content, was := V().clus[c], buf[..];
      for i := 0 to bpb.sectorsPerCluster
        invariant CopiedUpTo(was, buf[..], content, at, 512 * i)
      {
        ReadPart(c, lba, i, buf, at, was);
      }
    }

    /** Sector `i` of a cluster goes behind the ones already copied. */
    method ReadPart(ghost c: nat, lba: nat, i: nat, buf: array<byte>, at: nat, ghost was: seq<byte>)
      requires Mounted() && 2 <= c < bpb.Entries() && i < bpb.sectorsPerCluster && |V().clus[c]| == bpb.ClusterSize()
      requires FAT32_START_LBA + lba == bpb.ClusterLba(c) && at + bpb.ClusterSize() <= buf.Length
      requires CopiedUpTo(was, buf[..], V().clus[c], at, 512 * i)
      modifies buf
      ensures CopiedUpTo(was, buf[..], V().clus[c], at, 512 * (i + 1))
    {
      ViewSector(bpb, disk[..], c, i);
      ghost var before, content := buf[..], V().clus[c];
      ReadSector(lba + i, buf, at + i * 512);
      CopiedMore(was, before, buf[..], content, at, 512 * i);
    }

    method WriteCluster(c: nat, buf: array<byte>)
      requires Mounted() && 2 <= c < bpb.Entries() && buf.Length == bpb.ClusterSize()
      modifies disk
      ensures Mounted() && V() == old(V()).(clus := old(V()).clus[c := buf[..]])
      ensures SameOutside(bpb, old(disk[..]), disk[..])
    {
      PutClusterEffect(bpb, disk[..], c, buf[..]);
      var lba := dataStart + Times(c - 2, bpb.sectorsPerCluster);
      ghost var was, content := disk[..], buf[..];
      for i := 0 to bpb.sectorsPerCluster
        invariant disk[..] == PutClusterSectors(bpb, was, c, content, i)
      {
        WriteSector(lba + i, buf, i * 512);
      }
    }

    // ----- the allocation table -----

    method PutWord(buf: array<byte>, o: nat, w: word)
      requires o + 4 <= buf.Length
      modifies buf
      ensures buf[..] == SetWord(old(buf[..]), o, w)
    {
      buf[o], buf[o + 1], buf[o + 2], buf[o + 3] := w % 0x100, w / 0x100 % 0x100, w / 0x1_0000 % 0x100, w / 0x100_0000;
    }

    method FatGet(cluster: nat) returns (next: nat)
      requires Mounted() && cluster < bpb.Entries()
      ensures next == Link(V().raw[cluster])
    {
      FatBounds(bpb, disk.Length);
      var fatOffset := cluster * 4;
      var fatSector := fatStart + fatOffset / 512;
      var off := fatOffset % 512;
      EntryPlace(cluster);
      ViewEntry(bpb, disk[..], cluster);
      ghost var v := V();
      var buf := new byte[512];
      ReadSector(fatSector, buf, 0);
      assert buf[..] == buf[0..512] && V() == v;
      next := GetWord(buf[..], off) % 0x1000_0000;
    }

    /** Writes a patched table sector to both copies. */
    method WriteTableSector(fatSector: nat, buf: array<byte>, ghost c: nat, ghost w: word)
      requires Mounted() && c < bpb.Entries() && buf.Length == 512
      requires fatSector == fatStart + c / 128
      requires FAT32_START_LBA + fatSector < disk.Length
      requires buf[..] == SetWord(disk[FAT32_START_LBA + fatSector], c % 128 * 4, w)
      modifies disk
      ensures Mounted() && V() == old(V()).(raw := old(V()).raw[c := w])
      ensures SameOutside(bpb, old(disk[..]), disk[..])
    {
      PutTableSectorEffect(bpb, disk[..], c, w);
      WriteCopies(fatSector, buf);
    }

    /** The sector goes to the first table copy and, if there is one, to the second. */
    method WriteCopies(fatSector: nat, buf: array<byte>)
      requires bpb.Fits(disk.Length) && fatStart == bpb.reservedSectors && buf.Length == 512
      requires fatStart <= fatSector < fatStart + bpb.sectorsPerFat
      modifies disk
      ensures disk[..] == PutTableSector(bpb, old(disk[..]), fatSector - fatStart, buf[..])
    {
      FatBounds(bpb, disk.Length);
      assert buf[0..512] == buf[..];
      WriteSector(fatSector, buf, 0);
      if bpb.fatCount > 1 {
        WriteSector(fatSector + bpb.sectorsPerFat, buf, 0);
      }
    }

    method FatSet(cluster: nat, value: nat)
      requires Mounted() && cluster < bpb.Entries()
      modifies disk
      ensures Mounted() && V() == old(V()).(raw := old(V()).raw[cluster := SetLink(old(V()).raw[cluster], value)])
      ensures SameOutside(bpb, old(disk[..]), disk[..])
    {
      FatBounds(bpb, disk.Length);
      var fatOffset := cluster * 4;
      var fatSector := fatStart + fatOffset / 512;
      var off := fatOffset % 512;
      EntryPlace(cluster);
      ViewEntry(bpb, disk[..], cluster);
      ghost var v, was := V(), disk[..];
      var buf := new byte[512];
      ReadSector(fatSector, buf, 0);
      assert buf[..] == buf[0..512];
      var word := GetWord(buf[..], off);
      assert disk[..] == was && V() == v && word == v.raw[cluster];
      PutWord(buf, off, SetLink(word, value));
      WriteTableSector(fatSector, buf, cluster, SetLink(word, value));
    }

    /** Marks word `i` of table sector `s`, held in `buf`, as the end of a chain. */
    method ClaimCluster(s: nat, i: nat, buf: array<byte>)
      requires Mounted() && s < bpb.sectorsPerFat && i < 128 && buf.Length == 512
      requires bpb.FatLba() + s < disk.Length && buf[..] == disk[bpb.FatLba() + s]
      modifies disk, buf
      ensures 128 * s + i < bpb.Entries()
      ensures Mounted() && V() == old(V()).(raw := old(V()).raw[128 * s + i := SetLink(old(V()).raw[128 * s + i], 0x0FFF_FFFF)])
      ensures SameOutside(bpb, old(disk[..]), disk[..])
    {
      TableCell(bpb, disk[..], s, i);
      var word := GetWord(buf[..], i * 4);
      PutWord(buf, i * 4, SetLink(word, 0x0FFF_FFFF));
      WriteTableSector(fatStart + s, buf, 128 * s + i, SetLink(word, 0x0FFF_FFFF));
    }

    /** The inner loop of fat_alloc_cluster: reads table sector `s` and finds its first free cluster. */
    method ScanSector(s: nat) returns (i: nat, buf: array<byte>)
      requires Mounted() && s < bpb.sectorsPerFat
      ensures fresh(buf) && buf.Length == 512
      ensures bpb.FatLba() + s < disk.Length && buf[..] == disk[bpb.FatLba() + s]
      ensures i <= 128 && (i < 128 ==> 2 <= 128 * s + i)
      ensures FirstFree(V().raw, 128 * s) == if i < 128 then 128 * s + i else FirstFree(V().raw, 128 * (s + 1))
    {
      FatBounds(bpb, disk.Length);
      ghost var was, v, sec := disk[..], V(), disk[bpb.FatLba() + s];
      SectorHolds(bpb, was, s);
      ScanExact(v.raw, sec, s);
      buf := new byte[512];
      ReadSector(fatStart + s, buf, 0);
      assert disk[..] == was && V() == v;
      assert buf[..] == buf[0..512];
      i := 0;
      while i < 128 && !(2 <= s * 128 + i && GetWord(buf[..], i * 4) % 0x1000_0000 == 0)
        invariant i <= 128 && ScanFrom(sec, 128 * s, 0) == ScanFrom(sec, 128 * s, i)
      {
        i := i + 1;
      }
    }

    /** One round of fat_alloc_cluster's outer loop: takes the first free cluster of table sector `s`. */
    method AllocInSector(s: nat) returns (c: nat)
      requires Mounted() && s < bpb.sectorsPerFat
      modifies disk
      ensures Mounted()
      ensures if c == 0 then disk[..] == old(disk[..]) && FirstFree(old(V()).raw, 128 * s) == FirstFree(old(V()).raw, 128 * (s + 1))
              else c == FirstFree(old(V()).raw, 128 * s) &&
                   V() == old(V()).(raw := old(V()).raw[c := SetLink(old(V()).raw[c], 0x0FFF_FFFF)])
      ensures SameOutside(bpb, old(disk[..]), disk[..])
    {
      ghost var was, v := disk[..], V();
      var i, buf := ScanSector(s);
      assert disk[..] == was && V() == v;
      if i == 128 {
        return 0;
      }
      ClaimCluster(s, i, buf);
      c := 128 * s + i;
    }

    method FatAllocCluster() returns (c: nat)
      requires Mounted()
      modifies disk
      ensures c == FirstFree(old(V()).raw, 0)
      ensures c == 0 ==> disk[..] == old(disk[..])
      ensures Mounted() && V() == if c == 0 then old(V()) else old(V()).(raw := old(V()).raw[c := SetLink(old(V()).raw[c], 0x0FFF_FFFF)])
      ensures SameOutside(bpb, old(disk[..]), disk[..])
    {
      for s := 0 to bpb.sectorsPerFat
        invariant disk[..] == old(disk[..])
        invariant FirstFree(old(V()).raw, 0) == FirstFree(old(V()).raw, 128 * s)
      {
        c := AllocInSector(s);
        if c != 0 {
          return;
        }
      }
      c := 0;
    }

    method FatFreeChain(first: nat)
      requires Mounted() && InRange(V().raw) && TableIndex(V().raw, first)
      modifies disk
      ensures Mounted() && V() == old(V()).(raw := FreeWalk(old(V()).raw, first))
      ensures !IsCluster(first) ==> disk[..] == old(disk[..])
      ensures SameOutside(bpb, old(disk[..]), disk[..])
    {
      var cluster: nat := first;
      while 2 <= cluster && cluster < END_OF_CHAIN
        invariant Mounted() && V().clus == old(V()).clus
        invariant InRange(V().raw) && TableIndex(V().raw, cluster)
        invariant FreeWalk(V().raw, cluster) == FreeWalk(old(V()).raw, first)
        invariant !IsCluster(first) ==> cluster == first && disk[..] == old(disk[..])
        invariant SameOutside(bpb, old(disk[..]), disk[..])
        decreases UsedCount(V().raw), IsCluster(cluster)
      {
        var next := FatGet(cluster);
        ghost var raw := V().raw;
        UsedCountUpdate(raw, cluster, SetLink(raw[cluster], 0));
        FatSet(cluster, 0);
        assert V().raw == raw[cluster := SetLink(raw[cluster], 0)];
        cluster := next;
      }
    }

    // ----- names and directory slots -----

    /** The base loop of name_to_fat83; `j` is where it stops in the name. */
    method FillBase(name: seq<byte>, fatname: array<byte>) returns (j: nat)
      requires fatname.Length == 11
      modifies fatname
      ensures j == BaseEnd(name, 0) && fatname[..8] == FatBase(name)
      ensures fatname[8..] == [SPACE, SPACE, SPACE]
    {
      forall i | 0 <= i < 11 {
        fatname[i] := SPACE;
      }
      j := 0;
      while CharAt(name, j) != 0 && CharAt(name, j) != DOT && j < 8
        invariant j <= 8 && BaseEnd(name, j) == BaseEnd(name, 0)
        invariant forall i :: 0 <= i < 11 ==> fatname[i] == if i < j then Upper(CharAt(name, i)) else SPACE
        decreases 8 - j
      {
        fatname[j] := Upper(CharAt(name, j));
        j := j + 1;
      }
      BaseIs(name, fatname[..8], j);
    }

    /** The extension loop of name_to_fat83, from just past the dot at `j`. */
    method FillExt(name: seq<byte>, j: nat, fatname: array<byte>)
      requires fatname.Length == 11
      requires j == BaseEnd(name, 0) && CharAt(name, j) == DOT
      requires fatname[8..] == [SPACE, SPACE, SPACE]
      modifies fatname
      ensures fatname[..8] == old(fatname[..8]) && fatname[8..] == FatExt(name)
    {
      var p, e := j + 1, 8;
      assert forall i :: 8 <= i < 11 ==> fatname[i] == fatname[8..][i - 8];
      while CharAt(name, p) != 0 && e < 11
        invariant 8 <= e <= 11 && p == j + 1 + (e - 8)
        invariant ExtLen(name, j + 1, 3) == e - 8 + ExtLen(name, p, 11 - e)
        invariant fatname[..8] == old(fatname[..8])
        invariant forall i :: 8 <= i < 11 ==> fatname[i] == if i < e then Upper(CharAt(name, j + 1 + (i - 8))) else SPACE
        decreases 11 - e
      {
        fatname[e] := Upper(CharAt(name, p));
        p, e := p + 1, e + 1;
      }
      ExtIs(name, fatname[8..], j, e - 8);
    }

    method NameToFat83(name: seq<byte>, fatname: array<byte>)
      requires fatname.Length == 11
      modifies fatname
      ensures fatname[..] == Fat83(name)
    {
      var j := FillBase(name, fatname);
      if CharAt(name, j) == DOT {
        FillExt(name, j, fatname);
      } else {
        ExtIs(name, fatname[8..], j, 0);
      }
      assert fatname[..] == fatname[..8] + fatname[8..];
    }

    method FindDirEntry(dirbuf: array<byte>, fatname: array<byte>) returns (off: int, freeOff: int)
      requires fatname.Length == 11 && dirbuf.Length % 32 == 0
      ensures var f := FindFrom(dirbuf[..], fatname[..], 0); off == if f < 0 then -1 else 32 * f
      ensures off < 0 ==> var f := FreeFrom(dirbuf[..], fatname[..], 0); freeOff == if f < 0 then -1 else 32 * f
    {
      off, freeOff := -1, -1;
      ghost var dir, name: FatName := dirbuf[..], fatname[..];
      var k := 0;
      while 32 * k < dirbuf.Length
        invariant k <= Slots(dir)
        invariant off == -1 && FindFrom(dir, name, 0) == FindFrom(dir, name, k)
        invariant if freeOff < 0 then freeOff == -1 && FreeFrom(dir, name, 0) == FreeFrom(dir, name, k)
                  else freeOff == 32 * FreeFrom(dir, name, 0)
      {
        var entry: Entry := dirbuf[32 * k..32 * k + 32];
        assert entry == Slot(dir, k);
        if entry[0] == 0 {
          if freeOff < 0 { freeOff := 32 * k; }
          return;
        }
        if entry[0] == DELETED {
          if freeOff < 0 { freeOff := 32 * k; }
        } else if entry[11] != 0x0F {
          var matches := true;
          for i := 0 to 11
            invariant matches && name[..i] == entry[..i]
          {
            if fatname[i] != entry[i] {
              matches := false;
              break;
            }
          }
          if matches {
            assert name == NameOf(entry);
            off := 32 * k;
            return;
          }
          assert name != NameOf(entry);
        }
        k := k + 1;
      }
    }

    /** Writes the entry's bytes into its slot of a directory buffer. */
    method StoreEntry(dirbuf: array<byte>, off: nat, fatname: array<byte>, cluster: nat, size: word)
      requires fatname.Length == 11 && fatname != dirbuf && cluster < 0x1_0000_0000
      requires off % 32 == 0 && off + 32 <= dirbuf.Length
      modifies dirbuf
      ensures dirbuf[..] == SetSlot(old(dirbuf[..]), off / 32, NewEntry(fatname[..], cluster, size))
    {
      var e: Entry := NewEntry(fatname[..], cluster, size);
      ghost var was := dirbuf[..];
      for i := 0 to 32
        invariant forall k :: 0 <= k < |was| ==> dirbuf[k] == if off <= k < off + i then e[k - off] else was[k]
      {
        dirbuf[off + i] := e[i];
      }
      assert dirbuf[..] == was[..off] + e + was[off + 32..];
      assert 32 * (off / 32) == off;
    }

    /** Writes back the one sector of the buffered directory that holds the slot. */
    method FlushDirSector(dirbuf: array<byte>, off: nat)
      requires Mounted() && Shape(bpb, V()) && dirbuf.Length == bpb.ClusterSize()
      requires off % 32 == 0 && off / 32 < Slots(dirbuf[..])
      modifies disk
      ensures Mounted() && V() == Flush(bpb, old(V()), dirbuf[..], off / 32)
      ensures SameOutside(bpb, old(disk[..]), disk[..])
    {
      FlushEffect(bpb, disk[..], dirbuf[..], off / 32);
      var baseLba := dataStart + Times(rootCluster - 2, bpb.sectorsPerCluster);
      var sec := off / 512;
      assert 32 * (off / 32) / 512 == sec;
      WriteSector(baseLba + sec, dirbuf, sec * 512);
    }

    // ----- file operations -----

    /** The directory as a search sees it: the 8.3 name, a buffer with the root cluster, the slot
        that holds the name and the slot that could, as byte offsets or -1. */
    method LookUp(name: seq<byte>) returns (fatname: array<byte>, dirbuf: array<byte>, off: int, freeOff: int)
      requires Mounted() && Shape(bpb, V())
      ensures fresh(fatname) && fresh(dirbuf) && fatname != dirbuf
      ensures fatname.Length == 11 && fatname[..] == Fat83(name) && dirbuf[..] == Dir(bpb, V())
      ensures var f := FindFrom(Dir(bpb, V()), Fat83(name), 0); off == if f < 0 then -1 else 32 * f
      ensures off >= 0 ==> off % 32 == 0 && off / 32 < Slots(Dir(bpb, V())) && off + 32 <= dirbuf.Length
      ensures off < 0 ==> var f := FreeFrom(Dir(bpb, V()), Fat83(name), 0); freeOff == if f < 0 then -1 else 32 * f
    {
      FindBounds(Dir(bpb, V()), Fat83(name), 0);
      fatname := new byte[11];
      NameToFat83(name, fatname);
      dirbuf := new byte[bpb.ClusterSize()];
      ReadCluster(rootCluster, dirbuf, 0);
      assert dirbuf[..] == dirbuf[0..bpb.ClusterSize()];
      off, freeOff := FindDirEntry(dirbuf, fatname);
      SlotOffset(FindFrom(Dir(bpb, V()), Fat83(name), 0));
    }

    method CreateEntry(name: seq<byte>) returns (ok: bool)
      requires Mounted() && Shape(bpb, V())
      modifies disk
      ensures Mounted() && (ok, V()) == CreateSpec(bpb, old(V()), Fat83(name))
      ensures !ok ==> disk[..] == old(disk[..])
      ensures SameOutside(bpb, old(disk[..]), disk[..])
    {
      FindBounds(Dir(bpb, V()), Fat83(name), 0);
      var fatname, dirbuf, existing, freeOff := LookUp(name);
      if existing >= 0 {
        return false;
      }
      if freeOff < 0 {
        return false;
      }
      StoreEntry(dirbuf, freeOff, fatname, 0, 0);
      FlushIsPut(bpb, V(), freeOff / 32, NewEntry(Fat83(name), 0, 0));
      FlushDirSector(dirbuf, freeOff);
      ok := true;
    }

    method EntryAt(dirbuf: array<byte>, off: nat) returns (entry: Entry)
      requires off % 32 == 0 && off + 32 <= dirbuf.Length
      ensures off / 32 < Slots(dirbuf[..]) && entry == Slot(dirbuf[..], off / 32)
    {
      assert 32 * (off / 32) == off;
      entry := dirbuf[..][off..off + 32];
    }

    /** Frees the chain of the entry at `off` of the buffered directory. */
    method FreeOldChain(dirbuf: array<byte>, off: nat) returns (first: nat)
      requires Mounted() && Walkable(bpb, V()) && dirbuf[..] == Dir(bpb, V()) && dirbuf as object != disk
      requires off % 32 == 0 && off / 32 < Slots(Dir(bpb, V())) && Live(Slot(Dir(bpb, V()), off / 32))
      modifies disk
      ensures Mounted() && V() == Release(bpb, old(V()), off / 32)
      ensures first == FirstCluster(Slot(Dir(bpb, old(V())), off / 32))
      ensures !IsCluster(first) ==> disk[..] == old(disk[..])
      ensures SameOutside(bpb, old(disk[..]), disk[..])
    {
      var entry := EntryAt(dirbuf, off);
      first := FirstCluster(entry);
      FatFreeChain(first);
    }

    /** Deletes on the view level; `Walkable` is all that freeing a chain needs. */
    method DeleteEntry(name: seq<byte>) returns (ok: bool)
      requires Mounted() && Walkable(bpb, V())
      modifies disk
      ensures Mounted() && (ok, V()) == DeleteSpec(bpb, old(V()), Fat83(name))
      ensures !ok ==> disk[..] == old(disk[..])
      ensures SameOutside(bpb, old(disk[..]), disk[..])
    {
      ghost var dir := Dir(bpb, V());
      FindBounds(dir, Fat83(name), 0);
      var fatname, dirbuf, dirOff, _ := LookUp(name);
      if dirOff < 0 {
        return false;
      }
      var first := FreeOldChain(dirbuf, dirOff);
      MarkDeleted(dir, dirOff / 32);
      dirbuf[dirOff] := DELETED;
      FlushIsPut(bpb, V(), dirOff / 32, Slot(dir, dirOff / 32)[0 := DELETED]);
      FlushDirSector(dirbuf, dirOff);
      ok := true;
    }

    /** Writes on the view level: frees the old chain, takes one free cluster, stores the entry.
        Whatever the chains look like, a refused write has left the disk alone. */
    method WriteEntry(name: seq<byte>, data: seq<byte>) returns (ok: bool)
      requires Mounted() && Walkable(bpb, V())
      modifies disk
      ensures Mounted() && (ok, V()) == WriteSpec(bpb, old(V()), Fat83(name), data)
      ensures !ok ==> disk[..] == old(disk[..])
      ensures SameOutside(bpb, old(disk[..]), disk[..])
    {
      if |data| > bpb.ClusterSize() {
        return false;
      }
      var fatname, dirbuf, off := PrepareSlot(name);
      if off < 0 {
        return false;
      }
      ok := CommitWrite(dirbuf, off, fatname, data);
    }

    /** Takes a cluster for the data, if there is any, and stores the entry. */
    method CommitWrite(dirbuf: array<byte>, off: nat, fatname: array<byte>, data: seq<byte>) returns (ok: bool)
      requires Mounted() && Shape(bpb, V()) && dirbuf[..] == Dir(bpb, V()) && |data| <= bpb.ClusterSize()
      requires fatname.Length == 11 && fatname != dirbuf && dirbuf as object != disk && fatname as object != disk
      requires off % 32 == 0 && off / 32 < Slots(Dir(bpb, V()))
      modifies disk, dirbuf
      ensures Mounted() && (ok, V()) == CommitSpec(bpb, old(V()), off / 32, old(fatname[..]), data)
      ensures !ok ==> disk[..] == old(disk[..]) && FirstFree(old(V()).raw, 0) == 0
      ensures SameOutside(bpb, old(disk[..]), disk[..])
    {
      ghost var n: FatName, dir := fatname[..], dirbuf[..];
      var dataCluster := 0;
      if |data| > 0 {
        dataCluster := AllocAndStore(data);
        if dataCluster == 0 {
          return false;
        }
      }
      assert fatname[..] == n && dirbuf[..] == dir;
      FinishWrite(dirbuf, off, fatname, dataCluster, |data|);
      ok := true;
    }

    /** Takes a free cluster and fills it with the data. */
    method AllocAndStore(data: seq<byte>) returns (c: nat)
      requires Mounted() && Shape(bpb, V()) && |data| <= bpb.ClusterSize()
      modifies disk
      ensures c == FirstFree(old(V()).raw, 0)
      ensures c == 0 ==> disk[..] == old(disk[..])
      ensures Mounted() && V() == if c == 0 then old(V()) else Take(old(V()), c, ZeroPadded(data, bpb.ClusterSize()))
      ensures Shape(bpb, V())
      ensures SameOutside(bpb, old(disk[..]), disk[..])
    {
      c := FatAllocCluster();
      if c != 0 {
        StoreData(c, data);
      }
    }

    /** Chooses the slot a write goes to and frees the chain of the file it replaces. */
    method PrepareSlot(name: seq<byte>) returns (fatname: array<byte>, dirbuf: array<byte>, off: int)
      requires Mounted() && Walkable(bpb, V())
      modifies disk
      ensures fresh(fatname) && fresh(dirbuf) && fatname != dirbuf
      ensures fatname.Length == 11 && fatname[..] == Fat83(name) && dirbuf[..] == Dir(bpb, old(V()))
      ensures var (k, freed) := WriteSlot(bpb, old(V()), Fat83(name));
        && off == (if k < 0 then -1 else 32 * k)
        && Mounted() && V() == freed
        && k < Slots(Dir(bpb, old(V())))
      ensures disk[..] == old(disk[..]) || FirstFree(V().raw, 0) != 0
      ensures off < 0 ==> disk[..] == old(disk[..])
      ensures SameOutside(bpb, old(disk[..]), disk[..])
    {
      ghost var v := V();
      FindBounds(Dir(bpb, v), Fat83(name), 0);
      var freeOff;
      fatname, dirbuf, off, freeOff := LookUp(name);
      if off >= 0 {
        var first := FreeOldChain(dirbuf, off);
        if IsCluster(first) {
          FreeWalkMakesRoom(v.raw, first);
        }
      } else {
        off := freeOff;
      }
    }

    /** Fills a zeroed cluster buffer with the data and writes it. */
    method StoreData(c: nat, data: seq<byte>)
      requires Mounted() && 2 <= c < bpb.Entries() && |data| <= bpb.ClusterSize()
      modifies disk
      ensures Mounted() && V() == old(V()).(clus := old(V()).clus[c := ZeroPadded(data, bpb.ClusterSize())])
      ensures SameOutside(bpb, old(disk[..]), disk[..])
    {
      var cbuf := new byte[bpb.ClusterSize()];
      for i := 0 to cbuf.Length
        modifies cbuf
        invariant forall j :: 0 <= j < i ==> cbuf[j] == 0
      {
        cbuf[i] := 0;
      }
      for i := 0 to |data|
        modifies cbuf
        invariant forall j :: 0 <= j < cbuf.Length ==> cbuf[j] == if j < i then data[j] else 0
      {
        cbuf[i] := data[i];
      }
      assert cbuf[..] == ZeroPadded(data, bpb.ClusterSize());
      assert disk[..] == old(disk[..]) && V() == old(V());
      WriteCluster(c, cbuf);
    }

    /** Stores the entry in the buffered directory and writes its sector back. */
    method FinishWrite(dirbuf: array<byte>, off: nat, fatname: array<byte>, cluster: nat, size: word)
      requires Mounted() && Shape(bpb, V()) && dirbuf.Length == bpb.ClusterSize()
      requires fatname.Length == 11 && fatname != dirbuf && dirbuf as object != disk && cluster < 0x1_0000_0000
      requires off % 32 == 0 && off / 32 < Slots(dirbuf[..])
      modifies disk, dirbuf
      ensures Mounted()
      ensures V() == Flush(bpb, old(V()), SetSlot(old(dirbuf[..]), off / 32, NewEntry(old(fatname[..]), cluster, size)), off / 32)
      ensures SameOutside(bpb, old(disk[..]), disk[..])
    {
      StoreEntry(dirbuf, off, fatname, cluster, size);
      assert disk[..] == old(disk[..]) && V() == old(V());
      FlushDirSector(dirbuf, off);
    }

    // ----- the operations on a well-formed volume -----

    method CreateFile(name: seq<byte>) returns (ok: bool)
      requires Valid()
      modifies disk
      ensures Valid()
      ensures ok <==> Fat83(name) !in old(Contents()) && old(HasFreeSlot(bpb, V()))
      ensures Contents() == if ok then Bind(old(Contents()), Fat83(name), []) else old(Contents())
      ensures !ok ==> disk[..] == old(disk[..])
      ensures SameOutside(bpb, old(disk[..]), disk[..])
    {
      StepRefines(bpb, V(), chains, Create(Fat83(name)));
      CreateCorrect(bpb, V(), chains, Fat83(name));
      ok := CreateEntry(name);
    }

    method DeleteFile(name: seq<byte>) returns (ok: bool)
      requires Valid()
      modifies disk, this`chains
      ensures Valid()
      ensures ok <==> Fat83(name) in old(Contents())
      ensures Contents() == if ok then old(Contents()) - {Fat83(name)} else old(Contents())
      ensures !ok ==> disk[..] == old(disk[..])
      ensures SameOutside(bpb, old(disk[..]), disk[..])
    {
      ghost var v, op := V(), Delete(Fat83(name));
      DeleteSucceeds(bpb, v, chains, Fat83(name));
      StepRefines(bpb, v, chains, op);
      ghost var after := StepChains(bpb, v, chains, op);
      ok := DeleteEntry(name);
      chains := after;
    }

    method WriteFile(name: seq<byte>, data: seq<byte>) returns (ok: bool)
      requires Valid()
      modifies disk, this`chains
      ensures Valid()
      ensures !ok <==> old(WriteRefused(bpb, V(), chains, Fat83(name), data))
      ensures Contents() == if ok then Bind(old(Contents()), Fat83(name), data) else old(Contents())
      ensures !ok ==> disk[..] == old(disk[..])
      ensures SameOutside(bpb, old(disk[..]), disk[..])
    {
      ghost var v, op := V(), Write(Fat83(name), data);
      WellFormedWalkable(bpb, v, chains);
      StepRefines(bpb, v, chains, op);
      RefusedWrite(bpb, v, chains, Fat83(name), data);
      ghost var after := StepChains(bpb, v, chains, op);
      ok := WriteEntry(name, data);
      chains := after;
    }

    /** Reads cluster `i` of a chain behind the clusters already copied and follows its link. */
    method ReadNext(cluster: nat, buf: array<byte>, pos: nat, ghost first: nat, ghost ch: seq<nat>, ghost i: nat) returns (next: nat)
      requires Mounted() && Shape(bpb, V()) && IsChain(V().raw, first, ch) && i < |ch| && cluster == ch[i]
      requires cluster < bpb.Entries()
      requires pos == Times(i, bpb.ClusterSize()) && pos + bpb.ClusterSize() <= buf.Length
      requires pos <= |Concat(V().clus, ch)| && buf[..pos] == Concat(V().clus, ch)[..pos]
      modifies buf
      ensures next == Link(V().raw[cluster]) && IsChain(V().raw, next, ch[i + 1..])
      ensures Times(i + 1, bpb.ClusterSize()) == pos + bpb.ClusterSize() <= |Concat(V().clus, ch)|
      ensures buf[..pos + bpb.ClusterSize()] == Concat(V().clus, ch)[..pos + bpb.ClusterSize()]
      ensures buf[pos + bpb.ClusterSize()..] == old(buf[pos + bpb.ClusterSize()..])
    {
      ghost var v, before := V(), buf[..];
      ChainSuffix(v.raw, first, ch, i);
      assert ch[i..][1..] == ch[i + 1..];
      ReadCluster(cluster, buf, pos);
      SamePrefix(buf[..], before, pos, pos);
      ConcatNext(bpb, v, first, ch, i, before, buf[..]);
      assert V() == v;
      next := FatGet(cluster);
    }

    /** Copies the chain's clusters to the buffer until `size` bytes are there; the last cluster
        is copied whole. */
    method ReadChain(first: nat, size: word, buf: array<byte>, ghost ch: seq<nat>)
      requires Mounted() && Shape(bpb, V()) && IsChain(V().raw, first, ch)
      requires size <= Times(|ch|, bpb.ClusterSize()) && RoundUp(size, bpb.ClusterSize()) <= buf.Length
      modifies buf
      ensures size <= |Concat(V().clus, ch)| && buf[..size] == Concat(V().clus, ch)[..size]
      ensures buf[RoundUp(size, bpb.ClusterSize())..] == old(buf[RoundUp(size, bpb.ClusterSize())..])
    {
      var cluster: nat, remaining: nat, pos: nat := first, size, 0;
      ghost var v, i, was := V(), 0, buf[..];
      ConcatLength(bpb, v, first, ch);
      while 2 <= cluster && cluster < END_OF_CHAIN && remaining > 0
        invariant Mounted() && V() == v
        invariant Reading(bpb, v, ch, size, was, buf[..], i, cluster, pos, remaining)
        decreases remaining
      {
        cluster, pos, remaining := ReadOne(first, size, buf, ch, i, was, cluster, pos, remaining);
        i := i + 1;
      }
      ReadingDone(bpb, v, first, ch, size, was, buf[..], i, cluster, pos, remaining);
    }

    /** The body of the read loop. */
    method ReadOne(ghost first: nat, ghost size: nat, buf: array<byte>, ghost ch: seq<nat>, ghost i: nat, ghost was: seq<byte>,
                   cluster: nat, pos: nat, remaining: nat)
      returns (next: nat, npos: nat, left: nat)
      requires Mounted() && Shape(bpb, V()) && IsChain(V().raw, first, ch) && IsCluster(cluster) && remaining > 0
      requires Reading(bpb, V(), ch, size, was, buf[..], i, cluster, pos, remaining)
      modifies buf
      ensures Reading(bpb, V(), ch, size, was, buf[..], i + 1, next, npos, left) && left < remaining
    {
      ghost var v, n, before := V(), bpb.ClusterSize(), buf[..];
      RoundUpStep(size, n, i);
      ChainSuffix(v.raw, first, ch, i);
      next := ReadNext(cluster, buf, pos, first, ch, i);
      SameTail(before, buf[..], pos + n, RoundUp(size, n));
      var chunk := if remaining > bpb.ClusterSize() then bpb.ClusterSize() else remaining;
      npos := pos + chunk;
      left := remaining - chunk;
    }

    /** Reads on the view level: the entry the search finds sends the driver down chain `ch`. */
    method ReadEntry(name: seq<byte>, buf: array<byte>, ghost f: int, ghost first: nat, ghost size: word, ghost ch: seq<nat>) returns (r: int)
      requires Mounted() && Shape(bpb, V()) && f == FindFrom(Dir(bpb, V()), Fat83(name), 0) < Slots(Dir(bpb, V()))
      requires f >= 0 ==>
        && first == FirstCluster(Slot(Dir(bpb, V()), f)) && size == FileSize(Slot(Dir(bpb, V()), f))
        && IsChain(V().raw, first, ch) && size <= Times(|ch|, bpb.ClusterSize())
        && RoundUp(size, bpb.ClusterSize()) <= buf.Length
      modifies buf
      ensures if f < 0 then r == 0 && buf[..] == old(buf[..]) else
        && r == ToInt32(size) && size <= |Concat(V().clus, ch)|
        && buf[..size] == Concat(V().clus, ch)[..size]
        && buf[RoundUp(size, bpb.ClusterSize())..] == old(buf[RoundUp(size, bpb.ClusterSize())..])
    {
      ghost var v := V();
      var fatname, dirbuf, off, _ := LookUp(name);
      if off < 0 {
        return 0;
      }
      var entry := EntryAt(dirbuf, off);
      assert V() == v && off / 32 == f && entry == Slot(Dir(bpb, v), f);
      ReadChain(FirstCluster(entry), FileSize(entry), buf, ch);
      assert V() == v;
      r := ToInt32(FileSize(entry));
    }

    method ReadFile(name: seq<byte>, buf: array<byte>) returns (r: int)
      requires Valid()
      requires Fat83(name) in Contents() ==> RoundUp(|Contents()[Fat83(name)]|, bpb.ClusterSize()) <= buf.Length
      modifies buf
      ensures if Fat83(name) in old(Contents())
              then var data := old(Contents())[Fat83(name)];
                |data| < 0x1_0000_0000 && r == (if |data| < 0x8000_0000 then |data| else |data| - 0x1_0000_0000) && buf[..|data|] == data &&
                buf[RoundUp(|data|, bpb.ClusterSize())..] == old(buf[RoundUp(|data|, bpb.ClusterSize())..])
              else r == 0 && buf[..] == old(buf[..])
    {
      ghost var v := V();
      ghost var f, first, size, ch := LookupExact(bpb, v, chains, Fat83(name));
      r := ReadEntry(name, buf, f, first, size, ch);
      assert V() == v;
    }
  }
}
