/** Where a FAT32 volume keeps its table and its clusters on the disk, and the view of
    the disk as one table of words and one byte string per cluster. */
module Fat32Layout {
  import opened Bytes

  const FAT32_START_LBA := 20480
  /** The ATA driver addresses sectors with 28 bits. */
  const MAX_SECTORS := 0x1000_0000
  /** Links from here up end a chain. */
  const END_OF_CHAIN := 0x0FFF_FFF8

  type Sector = s: seq<byte> | |s| == 512 witness seq(512, _ => 0)

  /** The boot-sector fields the driver uses. */
  datatype Bpb = Bpb(sectorsPerCluster: nat, reservedSectors: nat, fatCount: nat, sectorsPerFat: nat, rootCluster: nat) {
    /** Number of table entries; every index from 2 up names a data cluster. */
    function Entries(): nat {
      128 * sectorsPerFat
    }

    function ClusterSize(): nat {
      512 * sectorsPerCluster
    }

    function FatLba(): nat {
      FAT32_START_LBA + reservedSectors
    }

    function DataLba(): nat {
      FatLba() + Times(fatCount, sectorsPerFat)
    }

    function ClusterLba(c: nat): nat
      requires 2 <= c
    {
      DataLba() + Times(c - 2, sectorsPerCluster)
    }

    /** The volume described lies inside a disk of `sectors` sectors. */
    ghost predicate Fits(sectors: nat) {
      && 1 <= sectorsPerCluster < 0x100
      && reservedSectors < 0x1_0000
      && 1 <= fatCount < 0x100
      && 1 <= sectorsPerFat
      && 2 <= rootCluster < Entries() <= END_OF_CHAIN
      && ClusterLba(Entries()) <= sectors <= MAX_SECTORS
    }

    /** The sectors that file operations may write: two table copies and the clusters. */
    ghost predicate Writable(lba: nat) {
      || FatLba() <= lba < FatLba() + (if fatCount > 1 then 2 else 1) * sectorsPerFat
      || (2 <= Entries() && DataLba() <= lba < ClusterLba(Entries()))
    }
  }

  /** The product `a * b`, as `TimesIsProduct` shows, in a form the solver need not multiply. */
  function Times(a: nat, b: nat): nat {
    if a == 0 then 0 else b + Times(a - 1, b)
  }

  lemma {:induction false} TimesIsProduct(a: nat, b: nat)
    ensures Times(a, b) == a * b
  {
    if a > 0 {
      TimesIsProduct(a - 1, b);
      assert a * b == (a - 1) * b + b;
    }
  }

  /** The boot-sector fields, at their packed offsets. */
  function ParseBpb(b: Sector): Bpb {
    Bpb(b[13], GetHalf(b, 14), b[16], GetWord(b, 36), GetWord(b, 44))
  }

  predicate SignatureOk(b: Sector) {
    b[66] == 0x28 || b[66] == 0x29
  }

  lemma {:induction false} MulLe(a: nat, b: nat, c: nat)
    requires a <= b
    ensures Times(a, c) <= Times(b, c)
    decreases b - a
  {
    if a < b {
      MulLe(a, b - 1, c);
    }
  }

  /** The first table copy, the second one, and the clusters lie one after the other. */
  lemma FatBounds(g: Bpb, sectors: nat)
    requires g.Fits(sectors)
    ensures g.FatLba() + g.sectorsPerFat <= g.DataLba() <= sectors
    ensures g.fatCount > 1 ==> g.FatLba() + 2 * g.sectorsPerFat <= g.DataLba()
  {
    MulLe(1, g.fatCount, g.sectorsPerFat);
    MulLe(0, g.Entries() - 2, g.sectorsPerCluster);
    if g.fatCount > 1 {
      MulLe(2, g.fatCount, g.sectorsPerFat);
    }
  }

  lemma ClusterBounds(g: Bpb, sectors: nat, c: nat)
    requires g.Fits(sectors) && 2 <= c < g.Entries()
    ensures g.DataLba() <= g.ClusterLba(c)
    ensures g.ClusterLba(c) + g.sectorsPerCluster <= g.ClusterLba(g.Entries()) <= sectors
  {
    MulLe(0, c - 2, g.sectorsPerCluster);
    MulLe(c - 1, g.Entries() - 2, g.sectorsPerCluster);
  }

  lemma ClustersApart(g: Bpb, c: nat, e: nat)
    requires 2 <= c < e
    ensures g.ClusterLba(c) + g.sectorsPerCluster <= g.ClusterLba(e)
  {
    MulLe(c - 1, e - 2, g.sectorsPerCluster);
  }

  /** The table as words and the clusters as byte strings; clusters 0 and 1 do not exist. */
  datatype View = View(raw: seq<word>, clus: seq<seq<byte>>)

  ghost function RawAt(g: Bpb, d: seq<Sector>, i: nat): word
    requires g.Fits(|d|) && i < g.Entries()
  {
    FatBounds(g, |d|);
    GetWord(d[g.FatLba() + i / 128], i % 128 * 4)
  }

  /** `n` consecutive sectors as one byte string. */
  ghost function Joined(d: seq<Sector>, lba: nat, n: nat): (b: seq<byte>)
    requires lba + n <= |d|
    ensures |b| == 512 * n
  {
    if n == 0 then [] else Joined(d, lba, n - 1) + d[lba + n - 1]
  }

  lemma {:induction false} JoinedAt(d: seq<Sector>, lba: nat, n: nat, i: nat)
    requires lba + n <= |d| && i < n
    ensures Joined(d, lba, n)[i * 512..i * 512 + 512] == d[lba + i]
    decreases n
  {
    if i < n - 1 {
      JoinedAt(d, lba, n - 1, i);
      assert Joined(d, lba, n)[i * 512..i * 512 + 512] == Joined(d, lba, n - 1)[i * 512..i * 512 + 512];
    }
  }

  lemma {:induction false} JoinedSame(d: seq<Sector>, e: seq<Sector>, lba: nat, n: nat)
    requires lba + n <= |d| == |e| && forall k: nat :: lba <= k < lba + n ==> d[k] == e[k]
    ensures Joined(d, lba, n) == Joined(e, lba, n)
    decreases n
  {
    if n > 0 {
      JoinedSame(d, e, lba, n - 1);
    }
  }

  lemma {:induction false} JoinedFrom(d: seq<Sector>, lba: nat, n: nat, buf: seq<byte>)
    requires lba + n <= |d| && 512 * n <= |buf|
    requires forall i :: 0 <= i < n ==> d[lba + i] == buf[i * 512..i * 512 + 512]
    ensures Joined(d, lba, n) == buf[..512 * n]
    decreases n
  {
    if n > 0 {
      JoinedFrom(d, lba, n - 1, buf);
      assert buf[..512 * n] == buf[..512 * (n - 1)] + buf[(n - 1) * 512..(n - 1) * 512 + 512];
    }
  }

  ghost function ClusterBytes(g: Bpb, d: seq<Sector>, c: nat): (b: seq<byte>)
    requires g.Fits(|d|) && c < g.Entries()
    ensures 2 <= c ==> |b| == g.ClusterSize()
  {
    if c < 2 then [] else
      ClusterBounds(g, |d|, c);
      Joined(d, g.ClusterLba(c), g.sectorsPerCluster)
  }

  /** The first `n` table entries, and the first `n` clusters. */
  ghost function Entries(g: Bpb, d: seq<Sector>, n: nat): (r: seq<word>)
    requires g.Fits(|d|) && n <= g.Entries()
    ensures |r| == n
  {
    if n == 0 then [] else Entries(g, d, n - 1) + [RawAt(g, d, n - 1)]
  }

  ghost function Clusters(g: Bpb, d: seq<Sector>, n: nat): (r: seq<seq<byte>>)
    requires g.Fits(|d|) && n <= g.Entries()
    ensures |r| == n
  {
    if n == 0 then [] else Clusters(g, d, n - 1) + [ClusterBytes(g, d, n - 1)]
  }

  ghost function ViewOf(g: Bpb, d: seq<Sector>): (v: View)
    requires g.Fits(|d|)
    ensures |v.raw| == |v.clus| == g.Entries()
  {
    View(Entries(g, d, g.Entries()), Clusters(g, d, g.Entries()))
  }

  lemma {:induction false} EntriesAt(g: Bpb, d: seq<Sector>, n: nat)
    requires g.Fits(|d|) && n <= g.Entries()
    ensures forall i :: 0 <= i < n ==> Entries(g, d, n)[i] == RawAt(g, d, i)
    ensures forall i :: 0 <= i < n ==> Clusters(g, d, n)[i] == ClusterBytes(g, d, i)
  {
    if n > 0 {
      EntriesAt(g, d, n - 1);
    }
  }

  /** From the bytes of the boot sector to the disk addresses: where the table starts, where each
      table entry is and where each cluster starts, all numbers low byte first. */
  lemma BootSectorLocates(b: Sector, c: nat)
    requires 2 <= c
    ensures var g := ParseBpb(b);
      var fat := 20480 + b[14] as int + 0x100 * b[15] as int;
      var perFat := b[36] as int + 0x100 * b[37] as int + 0x1_0000 * b[38] as int + 0x100_0000 * b[39] as int;
      && g.FatLba() == fat && g.sectorsPerFat == perFat && g.fatCount == b[16]
      && g.Entries() == 128 * perFat && g.ClusterSize() == 512 * b[13] as int
      && g.rootCluster == b[44] as int + 0x100 * b[45] as int + 0x1_0000 * b[46] as int + 0x100_0000 * b[47] as int
      && g.ClusterLba(c) == fat + b[16] as int * perFat + (c - 2) * b[13] as int
  {
    var g := ParseBpb(b);
    TimesIsProduct(g.fatCount, g.sectorsPerFat);
    TimesIsProduct(c - 2, g.sectorsPerCluster);
  }

  /** Entry `i` of the table is spelled out by four bytes of the table's sector `i / 128`, low byte first. */
  lemma EntryBytes(g: Bpb, d: seq<Sector>, i: nat)
    requires g.Fits(|d|) && i < g.Entries()
    ensures g.FatLba() + i / 128 < |d|
    ensures var sec, o := d[g.FatLba() + i / 128], i % 128 * 4;
      ViewOf(g, d).raw[i] == sec[o] as int + 0x100 * sec[o + 1] as int + 0x1_0000 * sec[o + 2] as int + 0x100_0000 * sec[o + 3] as int
  {
    ViewEntry(g, d, i);
  }

  /** Every entry of the view is the word the disk holds for it, and every cluster its bytes. */
  lemma ViewAt(g: Bpb, d: seq<Sector>)
    requires g.Fits(|d|)
    ensures forall i :: 0 <= i < g.Entries() ==> ViewOf(g, d).raw[i] == RawAt(g, d, i)
    ensures forall i :: 0 <= i < g.Entries() ==> ViewOf(g, d).clus[i] == ClusterBytes(g, d, i)
  {
    EntriesAt(g, d, g.Entries());
  }

  lemma ViewEntry(g: Bpb, d: seq<Sector>, i: nat)
    requires g.Fits(|d|) && i < g.Entries()
    ensures g.FatLba() + i / 128 < |d|
    ensures ViewOf(g, d).raw[i] == GetWord(d[g.FatLba() + i / 128], i % 128 * 4)
  {
    FatBounds(g, |d|);
    ViewAt(g, d);
    assert RawAt(g, d, i) == GetWord(d[g.FatLba() + i / 128], i % 128 * 4);
  }

  lemma ViewSector(g: Bpb, d: seq<Sector>, c: nat, i: nat)
    requires g.Fits(|d|) && 2 <= c < g.Entries() && i < g.sectorsPerCluster
    ensures g.ClusterLba(c) + i < |d| && |ViewOf(g, d).clus[c]| == g.ClusterSize()
    ensures ViewOf(g, d).clus[c][i * 512..i * 512 + 512] == d[g.ClusterLba(c) + i]
  {
    ViewAt(g, d);
    ClusterBounds(g, |d|, c);
    JoinedAt(d, g.ClusterLba(c), g.sectorsPerCluster, i);
  }

  /** Word `i` of table sector `s` is entry `128 * s + i`. */
  lemma TableCell(g: Bpb, d: seq<Sector>, s: nat, i: nat)
    requires g.Fits(|d|) && s < g.sectorsPerFat && i < 128 && g.FatLba() + s < |d|
    ensures (128 * s + i) / 128 == s && (128 * s + i) % 128 == i && 128 * s + i < g.Entries()
    ensures ViewOf(g, d).raw[128 * s + i] == GetWord(d[g.FatLba() + s], i * 4)
  {
    ViewAt(g, d);
    assert RawAt(g, d, 128 * s + i) == GetWord(d[g.FatLba() + s], i * 4);
  }

  /** The first `n` sectors of the second table copy equal those of the first. */
  ghost predicate CopiesAgree(g: Bpb, d: seq<Sector>, n: nat)
    requires g.FatLba() + g.sectorsPerFat + n <= |d|
  {
    n == 0 || (d[g.FatLba() + g.sectorsPerFat + n - 1] == d[g.FatLba() + n - 1] && CopiesAgree(g, d, n - 1))
  }

  /** The second table copy, when there is one, equals the first. */
  ghost predicate Mirrored(g: Bpb, d: seq<Sector>)
    requires g.Fits(|d|)
  {
    FatBounds(g, |d|);
    g.fatCount > 1 ==> CopiesAgree(g, d, g.sectorsPerFat)
  }

  ghost predicate SameSector(g: Bpb, d: seq<Sector>, s: nat)
    requires g.FatLba() + g.sectorsPerFat + s < |d|
  {
    d[g.FatLba() + g.sectorsPerFat + s] == d[g.FatLba() + s]
  }

  /** The copies agree exactly when every sector does. */
  lemma {:induction false} CopiesAgreeExact(g: Bpb, d: seq<Sector>, n: nat)
    requires g.FatLba() + g.sectorsPerFat + n <= |d|
    ensures CopiesAgree(g, d, n) <==> forall s: nat :: s < n ==> SameSector(g, d, s)
  {
    if n > 0 {
      CopiesAgreeExact(g, d, n - 1);
      assert SameSector(g, d, n - 1) <==> d[g.FatLba() + g.sectorsPerFat + n - 1] == d[g.FatLba() + n - 1];
    }
  }

  /** Copies that agreed still do when the changed sector `s` is the same in both. */
  lemma {:induction false} CopiesStillAgree(g: Bpb, d: seq<Sector>, e: seq<Sector>, s: nat, n: nat)
    requires g.FatLba() + g.sectorsPerFat + n <= |d| == |e| && n <= g.sectorsPerFat
    requires CopiesAgree(g, d, n) && s < g.sectorsPerFat
    requires s < n ==> e[g.FatLba() + g.sectorsPerFat + s] == e[g.FatLba() + s]
    requires forall lba: nat | g.FatLba() <= lba < g.FatLba() + g.sectorsPerFat + n ::
      lba == g.FatLba() + s || lba == g.FatLba() + g.sectorsPerFat + s || e[lba] == d[lba]
    ensures CopiesAgree(g, e, n)
    decreases n
  {
    if n > 0 {
      CopiesStillAgree(g, d, e, s, n - 1);
    }
  }

  lemma {:induction false} CopiesUntouched(g: Bpb, d: seq<Sector>, e: seq<Sector>, n: nat)
    requires g.FatLba() + g.sectorsPerFat + n <= |d| == |e| && CopiesAgree(g, d, n)
    requires forall lba: nat :: g.FatLba() <= lba < g.FatLba() + g.sectorsPerFat + n ==> e[lba] == d[lba]
    ensures CopiesAgree(g, e, n)
    decreases n
  {
    if n > 0 {
      CopiesUntouched(g, d, e, n - 1);
    }
  }

  ghost predicate SameOutside(g: Bpb, d: seq<Sector>, e: seq<Sector>) {
    |d| == |e| && forall lba: nat :: lba < |d| && !g.Writable(lba) ==> d[lba] == e[lba]
  }

  /** Rewriting the table sector that holds entry `c` changes that entry of the view and nothing else. */
  lemma TableWriteView(g: Bpb, d: seq<Sector>, e: seq<Sector>, c: nat, w: word)
    requires g.Fits(|d|) && |e| == |d| && c < g.Entries()
    requires g.FatLba() + c / 128 < |d|
    requires e[g.FatLba() + c / 128] == SetWord(d[g.FatLba() + c / 128], c % 128 * 4, w)
    requires forall lba: nat | lba < |d| && lba != g.FatLba() + c / 128 :: g.FatLba() + g.sectorsPerFat <= lba < g.DataLba() || e[lba] == d[lba]
    ensures ViewOf(g, e) == ViewOf(g, d).(raw := ViewOf(g, d).raw[c := w])
  {
    FatBounds(g, |d|);
    SetWordReads(d[g.FatLba() + c / 128], c % 128 * 4, w);
    forall i | 0 <= i < g.Entries()
      ensures RawAt(g, e, i) == if i == c then w else RawAt(g, d, i)
      ensures ClusterBytes(g, e, i) == ClusterBytes(g, d, i)
    {
      if i / 128 == c / 128 && i != c {
        assert i % 128 != c % 128;
      }
      if i >= 2 {
        ClusterBounds(g, |d|, i);
        JoinedSame(d, e, g.ClusterLba(i), g.sectorsPerCluster);
      }
    }
    ViewAt(g, d);
    ViewAt(g, e);
    assert ViewOf(g, e).raw == ViewOf(g, d).raw[c := w];
    assert ViewOf(g, e).clus == ViewOf(g, d).clus;
  }

  /** The disk once the first `n` sectors of cluster `c` hold the first `n` pieces of `buf`. */
  ghost function PutClusterSectors(g: Bpb, d: seq<Sector>, c: nat, buf: seq<byte>, n: nat): (e: seq<Sector>)
    requires 2 <= c && 512 * n <= |buf| && g.ClusterLba(c) + n <= |d|
    ensures |e| == |d|
  {
    if n == 0 then d
    else PutClusterSectors(g, d, c, buf, n - 1)[g.ClusterLba(c) + n - 1 := buf[(n - 1) * 512..(n - 1) * 512 + 512]]
  }

  lemma {:induction false} PutClusterSectorsAt(g: Bpb, d: seq<Sector>, c: nat, buf: seq<byte>, n: nat)
    requires 2 <= c && 512 * n <= |buf| && g.ClusterLba(c) + n <= |d|
    ensures var e := PutClusterSectors(g, d, c, buf, n);
      && (forall i :: 0 <= i < n ==> e[g.ClusterLba(c) + i] == buf[i * 512..i * 512 + 512])
      && (forall lba :: 0 <= lba < |d| && !(g.ClusterLba(c) <= lba < g.ClusterLba(c) + n) ==> e[lba] == d[lba])
  {
    if n > 0 {
      PutClusterSectorsAt(g, d, c, buf, n - 1);
    }
  }

  lemma PutClusterEffect(g: Bpb, d: seq<Sector>, c: nat, buf: seq<byte>)
    requires g.Fits(|d|) && 2 <= c < g.Entries() && |buf| == g.ClusterSize() && Mirrored(g, d)
    ensures g.ClusterLba(c) + g.sectorsPerCluster <= |d|
    ensures var e := PutClusterSectors(g, d, c, buf, g.sectorsPerCluster);
      && Mirrored(g, e)
      && ViewOf(g, e) == ViewOf(g, d).(clus := ViewOf(g, d).clus[c := buf])
      && SameOutside(g, d, e)
  {
    FatBounds(g, |d|);
    ClusterBounds(g, |d|, c);
    var e := PutClusterSectors(g, d, c, buf, g.sectorsPerCluster);
    PutClusterSectorsAt(g, d, c, buf, g.sectorsPerCluster);
    ClusterWriteView(g, d, e, c, buf);
    if g.fatCount > 1 {
      CopiesUntouched(g, d, e, g.sectorsPerFat);
    }
  }

  /** The disk once table sector `s` is `b` in every maintained copy. */
  ghost function PutTableSector(g: Bpb, d: seq<Sector>, s: nat, b: Sector): (e: seq<Sector>)
    requires g.Fits(|d|) && s < g.sectorsPerFat
    ensures |e| == |d|
  {
    FatBounds(g, |d|);
    var once := d[g.FatLba() + s := b];
    if g.fatCount > 1 then once[g.FatLba() + g.sectorsPerFat + s := b] else once
  }

  lemma PutTableSectorEffect(g: Bpb, d: seq<Sector>, c: nat, w: word)
    requires g.Fits(|d|) && c < g.Entries() && Mirrored(g, d)
    ensures c / 128 < g.sectorsPerFat && g.FatLba() + c / 128 < |d|
    ensures var e := PutTableSector(g, d, c / 128, SetWord(d[g.FatLba() + c / 128], c % 128 * 4, w));
      && Mirrored(g, e)
      && ViewOf(g, e) == ViewOf(g, d).(raw := ViewOf(g, d).raw[c := w])
      && SameOutside(g, d, e)
  {
    FatBounds(g, |d|);
    var e := PutTableSector(g, d, c / 128, SetWord(d[g.FatLba() + c / 128], c % 128 * 4, w));
    TableWriteView(g, d, e, c, w);
    if g.fatCount > 1 {
      CopiesStillAgree(g, d, e, c / 128, g.sectorsPerFat);
    }
  }

  /** Rewriting the sectors of cluster `c` changes that cluster of the view and nothing else. */
  lemma ClusterWriteView(g: Bpb, d: seq<Sector>, e: seq<Sector>, c: nat, buf: seq<byte>)
    requires g.Fits(|d|) && |e| == |d| && 2 <= c < g.Entries() && |buf| == g.ClusterSize()
    requires forall i :: 0 <= i < g.sectorsPerCluster && g.ClusterLba(c) + i < |e| ==>
      e[g.ClusterLba(c) + i] == buf[i * 512..i * 512 + 512]
    requires forall lba :: 0 <= lba < |d| && !(g.ClusterLba(c) <= lba < g.ClusterLba(c) + g.sectorsPerCluster) ==>
      e[lba] == d[lba]
    ensures ViewOf(g, e) == ViewOf(g, d).(clus := ViewOf(g, d).clus[c := buf])
  {
    FatBounds(g, |d|);
    ClusterBounds(g, |d|, c);
    JoinedFrom(e, g.ClusterLba(c), g.sectorsPerCluster, buf);
    assert buf[..g.ClusterSize()] == buf;
    forall i | 0 <= i < g.Entries()
      ensures RawAt(g, e, i) == RawAt(g, d, i)
      ensures i != c ==> ClusterBytes(g, e, i) == ClusterBytes(g, d, i)
    {
      if 2 <= i != c {
        ClusterBounds(g, |d|, i);
        ClustersApart(g, if i < c then i else c, if i < c then c else i);
        JoinedSame(d, e, g.ClusterLba(i), g.sectorsPerCluster);
      }
    }
    ViewAt(g, d);
    ViewAt(g, e);
    assert ViewOf(g, e).raw == ViewOf(g, d).raw;
    assert ViewOf(g, e).clus == ViewOf(g, d).clus[c := buf];
  }
}
