/** Create, write, read and delete as functions on the view, and what they do to the map. */
module Fat32Operations {
  import opened Bytes
  import opened Fat32Layout
  import opened Fat32Chains
  import opened Fat32Directory
  import opened Fat32Files
  import opened SlotTable

  ghost function PutEntry(g: Bpb, v: View, k: nat, e: Entry): View
    requires Shape(g, v) && k < Slots(Dir(g, v))
  {
    v.(clus := v.clus[g.rootCluster := SetSlot(Dir(g, v), k, e)])
  }

  /** The sector a slot lies in is one of the cluster's. */
  lemma SlotSector(k: nat, n: nat)
    requires k < 512 * n / 32
    ensures var sec := 32 * k / 512; sec < n && sec * 512 + 512 <= 512 * n
  {
    var sec := 32 * k / 512;
    assert sec * 512 <= 32 * k < 512 * n;
  }

  /** A cluster with one sector replaced by that of a buffer. */
  function WithSector(was: seq<byte>, buf: seq<byte>, sec: nat): (r: seq<byte>)
    requires |was| == |buf| && sec * 512 + 512 <= |buf|
    ensures |r| == |was|
  {
    was[..sec * 512] + buf[sec * 512..sec * 512 + 512] + was[sec * 512 + 512..]
  }

  lemma WithSectorAt(was: seq<byte>, buf: seq<byte>, sec: nat, i: nat)
    requires |was| == |buf| && sec * 512 + 512 <= |buf| && i * 512 + 512 <= |buf|
    ensures WithSector(was, buf, sec)[i * 512..i * 512 + 512] ==
      if i == sec then buf[i * 512..i * 512 + 512] else was[i * 512..i * 512 + 512]
  {
    if i < sec {
      assert i * 512 + 512 <= sec * 512;
    } else if i > sec {
      assert sec * 512 + 512 <= i * 512;
    }
  }

  /** The root directory once the sector of slot `k` has been written from a buffered directory. */
  ghost function Flush(g: Bpb, v: View, dir: seq<byte>, k: nat): View
    requires Shape(g, v) && |dir| == g.ClusterSize() && k < Slots(dir)
  {
    SlotSector(k, g.sectorsPerCluster);
    v.(clus := v.clus[g.rootCluster := WithSector(Dir(g, v), dir, 32 * k / 512)])
  }

  /** When the buffer differs from the directory in slot `k` only, one sector is enough. */
  lemma FlushIsPut(g: Bpb, v: View, k: nat, e: Entry)
    requires Shape(g, v) && k < Slots(Dir(g, v))
    ensures Flush(g, v, SetSlot(Dir(g, v), k, e), k) == PutEntry(g, v, k, e)
  {
    var dir, sec := Dir(g, v), 32 * k / 512;
    SlotSector(k, g.sectorsPerCluster);
    assert sec * 512 <= 32 * k && 32 * k + 32 <= sec * 512 + 512;
    assert WithSector(dir, SetSlot(dir, k, e), sec) == SetSlot(dir, k, e);
  }

  /** The chain freed when slot `k` is overwritten or deleted. */
  ghost function Release(g: Bpb, v: View, k: nat): View
    requires Shape(g, v) && k < Slots(Dir(g, v))
    requires InRange(v.raw) && TableIndex(v.raw, FirstCluster(Slot(Dir(g, v), k)))
  {
    v.(raw := FreeWalk(v.raw, FirstCluster(Slot(Dir(g, v), k))))
  }

  function ZeroPadded(data: seq<byte>, n: nat): (r: seq<byte>)
    requires |data| <= n
    ensures |r| == n && data <= r
  {
    data + seq(n - |data|, _ => 0)
  }

  /** Take free cluster `c` as a one-cluster chain holding `buf`. */
  ghost function Take(v: View, c: nat, buf: seq<byte>): View
    requires c < |v.raw| == |v.clus|
  {
    View(v.raw[c := SetLink(v.raw[c], 0x0FFF_FFFF)], v.clus[c := buf])
  }

  // ----- the operations -----

  /** The tables and slots that a live entry can send the driver to. */
  ghost predicate Walkable(g: Bpb, v: View) {
    && Shape(g, v)
    && InRange(v.raw)
    && forall k :: 0 <= k < Slots(Dir(g, v)) && Live(Slot(Dir(g, v), k)) ==> TableIndex(v.raw, FirstCluster(Slot(Dir(g, v), k)))
  }

  lemma {:induction false} FindBounds(dir: seq<byte>, name: FatName, k: nat)
    ensures var f := FindFrom(dir, name, k); f == -1 || (k <= f < Slots(dir) && Live(Slot(dir, f)) && NameOf(Slot(dir, f)) == name)
    ensures -1 <= FreeFrom(dir, name, k) < Slots(dir)
    decreases Slots(dir) - k
  {
    if k < Slots(dir) {
      FindBounds(dir, name, k + 1);
    }
  }

  ghost function CreateSpec(g: Bpb, v: View, name: FatName): (bool, View)
    requires Shape(g, v)
  {
    var dir := Dir(g, v);
    FindBounds(dir, name, 0);
    if FindFrom(dir, name, 0) >= 0 || FreeFrom(dir, name, 0) < 0 then (false, v)
    else (true, PutEntry(g, v, FreeFrom(dir, name, 0), NewEntry(name, 0, 0)))
  }

  ghost function DeleteSpec(g: Bpb, v: View, name: FatName): (bool, View)
    requires Walkable(g, v)
  {
    var dir := Dir(g, v);
    FindBounds(dir, name, 0);
    var f := FindFrom(dir, name, 0);
    if f < 0 then (false, v)
    else (true, PutEntry(g, Release(g, v, f), f, Slot(dir, f)[0 := DELETED]))
  }

  /** The slot a write goes to and the view once the old content is freed. */
  ghost function WriteSlot(g: Bpb, v: View, name: FatName): (int, View)
    requires Walkable(g, v)
  {
    var dir := Dir(g, v);
    FindBounds(dir, name, 0);
    var f := FindFrom(dir, name, 0);
    if f >= 0 then (f, Release(g, v, f)) else (FreeFrom(dir, name, 0), v)
  }

  /** Taking a cluster for the data, if there is any, and storing the entry in slot `k` of the
      directory as it was read before that. */
  ghost function CommitSpec(g: Bpb, freed: View, k: nat, name: FatName, data: seq<byte>): (bool, View)
    requires Shape(g, freed) && k < Slots(Dir(g, freed)) && |data| <= g.ClusterSize()
  {
    var dir := Dir(g, freed);
    if data == [] then (true, Flush(g, freed, SetSlot(dir, k, NewEntry(name, 0, 0)), k))
    else
      var c := FirstFree(freed.raw, 0);
      if c == 0 then (false, freed)
      else (true, Flush(g, Take(freed, c, ZeroPadded(data, g.ClusterSize())), SetSlot(dir, k, NewEntry(name, c, |data|)), k))
  }

  /** Unless the allocation took the root directory itself, a commit changes one slot of it. */
  lemma CommitIsPut(g: Bpb, freed: View, k: nat, name: FatName, data: seq<byte>)
    requires Shape(g, freed) && k < Slots(Dir(g, freed)) && |data| <= g.ClusterSize()
    ensures data == [] ==> CommitSpec(g, freed, k, name, data) == (true, PutEntry(g, freed, k, NewEntry(name, 0, 0)))
    ensures var c := FirstFree(freed.raw, 0);
      data != [] && c != 0 && c != g.rootCluster ==>
      CommitSpec(g, freed, k, name, data) == (true, PutEntry(g, Take(freed, c, ZeroPadded(data, g.ClusterSize())), k, NewEntry(name, c, |data|)))
  {
    var c := FirstFree(freed.raw, 0);
    if data == [] {
      FlushIsPut(g, freed, k, NewEntry(name, 0, 0));
    } else if c != 0 && c != g.rootCluster {
      var v := Take(freed, c, ZeroPadded(data, g.ClusterSize()));
      assert Dir(g, v) == Dir(g, freed);
      FlushIsPut(g, v, k, NewEntry(name, c, |data|));
    }
  }

  ghost function WriteSpec(g: Bpb, v: View, name: FatName, data: seq<byte>): (r: (bool, View))
    requires Walkable(g, v)
  {
    FindBounds(Dir(g, v), name, 0);
    var (k, freed) := WriteSlot(g, v, name);
    if |data| > g.ClusterSize() || k < 0 then (false, v) else CommitSpec(g, freed, k, name, data)
  }

  // ----- the bytes on the disk -----

  /** Between two views only the root directory and cluster `c` may differ. */
  ghost predicate SameClusters(g: Bpb, v: View, r: View, c: nat) {
    |r.clus| == |v.clus| && forall i :: 0 <= i < |v.clus| && i != g.rootCluster && i != c ==> r.clus[i] == v.clus[i]
  }

  /** In the directory only slot `k` differs. */
  ghost predicate SameSlots(dir: seq<byte>, after: seq<byte>, k: int) {
    |after| == |dir| && forall j :: 0 <= j < Slots(dir) && j != k ==> Slot(after, j) == Slot(dir, j)
  }

  lemma PutEntryBytes(g: Bpb, v: View, k: nat, name: FatName, cluster: nat, size: word)
    requires Shape(g, v) && k < Slots(Dir(g, v)) && cluster < 0x1_0000_0000
    ensures var r := PutEntry(g, v, k, NewEntry(name, cluster, size));
      && Shape(g, r) && r.raw == v.raw && SameClusters(g, v, r, g.rootCluster)
      && SameSlots(Dir(g, v), Dir(g, r), k) && Spells(Slot(Dir(g, r), k), name, cluster, size)
  {
    SetSlotReads(Dir(g, v), k, NewEntry(name, cluster, size));
    NewEntryBytes(name, cluster, size);
  }

  /** A created file's entry, byte by byte, is all that changes. */
  lemma CreatedBytes(g: Bpb, v: View, name: FatName)
    requires Shape(g, v) && CreateSpec(g, v, name).0
    ensures var r, k := CreateSpec(g, v, name).1, FreeFrom(Dir(g, v), name, 0);
      && Shape(g, r) && r.raw == v.raw && SameClusters(g, v, r, g.rootCluster)
      && 0 <= k < Slots(Dir(g, v)) && SameSlots(Dir(g, v), Dir(g, r), k)
      && Spells(Slot(Dir(g, r), k), name, 0, 0)
  {
    FindBounds(Dir(g, v), name, 0);
    PutEntryBytes(g, v, FreeFrom(Dir(g, v), name, 0), name, 0, 0);
  }

  /** A deletion changes one byte of the directory, to 0xE5, and no other cluster. */
  lemma DeletedBytes(g: Bpb, v: View, name: FatName)
    requires Walkable(g, v) && DeleteSpec(g, v, name).0
    ensures var r, f := DeleteSpec(g, v, name).1, FindFrom(Dir(g, v), name, 0);
      && Shape(g, r) && SameClusters(g, v, r, g.rootCluster)
      && 0 <= f && 32 * f < |Dir(g, v)| && Dir(g, r) == Dir(g, v)[32 * f := 0xE5]
  {
    FindBounds(Dir(g, v), name, 0);
  }

  /**
   * A write that stores data puts it at the start of the cluster it takes, with zeros behind it, and
   * an entry with the cluster and the size in the slot; an empty file's entry has cluster 0. No
   * other cluster and no other slot changes.
   */
  lemma WrittenBytes(g: Bpb, v: View, name: FatName, data: seq<byte>)
    requires Walkable(g, v) && WriteSpec(g, v, name, data).0
    requires data != [] ==> FirstFree(WriteSlot(g, v, name).1.raw, 0) != g.rootCluster
    ensures var r, (k, freed) := WriteSpec(g, v, name, data).1, WriteSlot(g, v, name);
      var c := if data == [] then 0 else FirstFree(freed.raw, 0);
      && Shape(g, r) && 0 <= k < Slots(Dir(g, v)) && SameSlots(Dir(g, v), Dir(g, r), k)
      && Spells(Slot(Dir(g, r), k), name, c, |data|)
      && SameClusters(g, v, r, if data == [] then g.rootCluster else c)
      && (data != [] ==> 2 <= c < |r.clus| && |r.clus[c]| == g.ClusterSize())
      && (data != [] ==> forall i :: 0 <= i < g.ClusterSize() ==> r.clus[c][i] == if i < |data| then data[i] else 0)
  {
    var (k, freed) := WriteSlot(g, v, name);
    FindBounds(Dir(g, v), name, 0);
    CommitIsPut(g, freed, k, name, data);
    if data == [] {
      PutEntryBytes(g, freed, k, name, 0, 0);
    } else {
      TakenBytes(g, freed, k, name, data, FirstFree(freed.raw, 0));
    }
  }

  lemma TakenBytes(g: Bpb, v: View, k: nat, name: FatName, data: seq<byte>, c: nat)
    requires Shape(g, v) && k < Slots(Dir(g, v)) && |data| <= g.ClusterSize() && 2 <= c < |v.raw| && c != g.rootCluster
    ensures var r := PutEntry(g, Take(v, c, ZeroPadded(data, g.ClusterSize())), k, NewEntry(name, c, |data|));
      && Shape(g, r) && SameSlots(Dir(g, v), Dir(g, r), k) && Spells(Slot(Dir(g, r), k), name, c, |data|)
      && SameClusters(g, v, r, c) && |r.clus[c]| == g.ClusterSize()
      && forall i :: 0 <= i < g.ClusterSize() ==> r.clus[c][i] == if i < |data| then data[i] else 0
  {
    var t := Take(v, c, ZeroPadded(data, g.ClusterSize()));
    assert Dir(g, t) == Dir(g, v);
    PutEntryBytes(g, t, k, name, c, |data|);
  }

  // ----- steps -----

  lemma WellFormedWalkable(g: Bpb, v: View, chains: seq<seq<nat>>)
    requires WellFormed(g, v, chains)
    ensures Walkable(g, v)
  {}

  /** Freeing slot `k`'s chain harms no other slot. */
  lemma ReleaseKeeps(g: Bpb, v: View, chains: seq<seq<nat>>, k: nat)
    requires WellFormed(g, v, chains) && k < Slots(Dir(g, v)) && Live(Slot(Dir(g, v), k))
    ensures TableIndex(v.raw, FirstCluster(Slot(Dir(g, v), k)))
    ensures WellFormedBut(g, Release(g, v, k), chains[k := []], k)
    ensures Release(g, v, k).raw == Zeroed(v.raw, Elems(chains[k]))
  {
    var dir := Dir(g, v);
    var r := Release(g, v, k);
    FreeChainExact(v.raw, FirstCluster(Slot(dir, k)), chains[k]);
    forall j | 0 <= j < Slots(dir) && j != k && Live(Slot(dir, j))
      ensures IsChain(r.raw, FirstCluster(Slot(dir, j)), chains[j])
    {
      assert forall x :: x in chains[j] ==> x !in Elems(chains[k]) by {
        assert Disjoint(chains[if j < k then j else k], chains[if j < k then k else j]);
      }
      ChainFrame(v.raw, r.raw, FirstCluster(Slot(dir, j)), chains[j]);
    }
  }

  /** A free cluster belongs to nobody. */
  lemma FreeIsUnowned(g: Bpb, v: View, chains: seq<seq<nat>>, k: int, c: nat, j: nat)
    requires WellFormedBut(g, v, chains, k) && c < g.Entries() && Link(v.raw[c]) == 0
    requires j < |chains| && j != k
    ensures c != g.rootCluster && c !in chains[j]
  {
    var dir := Dir(g, v);
    if c in chains[j] {
      var i :| 0 <= i < |chains[j]| && chains[j][i] == c;
      ChainSuffix(v.raw, FirstCluster(Slot(dir, j)), chains[j], i);
    }
  }

  /** Taking a free cluster harms no slot but the one it is meant for. */
  lemma TakeKeeps(g: Bpb, v: View, chains: seq<seq<nat>>, k: nat, c: nat, buf: seq<byte>)
    requires WellFormedBut(g, v, chains, k) && k < Slots(Dir(g, v)) && |buf| == g.ClusterSize()
    requires 2 <= c < g.Entries() && Link(v.raw[c]) == 0
    ensures c != g.rootCluster && WellFormedBut(g, Take(v, c, buf), chains, k)
    ensures forall j :: 0 <= j < |chains| && j != k ==> c !in chains[j]
    ensures IsChain(Take(v, c, buf).raw, c, [c])
  {
    var dir := Dir(g, v);
    var r := Take(v, c, buf);
    AllocThenFree(v.raw, c);
    assert c != g.rootCluster;
    forall j | 0 <= j < |chains| && j != k
      ensures c !in chains[j]
      ensures Live(Slot(dir, j)) ==> IsChain(r.raw, FirstCluster(Slot(dir, j)), chains[j])
    {
      FreeIsUnowned(g, v, chains, k, c, j);
      if Live(Slot(dir, j)) {
        ChainFrame(v.raw, r.raw, FirstCluster(Slot(dir, j)), chains[j]);
      }
    }
  }

  /** Filling slot `k` with an entry that owns `ch` completes a volume that lacked only slot `k`. */
  lemma PutCompletes(g: Bpb, v: View, chains: seq<seq<nat>>, k: nat, e: Entry, ch: seq<nat>)
    requires WellFormedBut(g, v, chains, k) && k < Slots(Dir(g, v)) && ZeroTail(Dir(g, v))
    requires e[0] != 0 && forall j :: 0 <= j < k ==> Slot(Dir(g, v), j)[0] != 0
    requires if Live(e) then OwnsChain(g, v, e, ch) else ch == []
    requires forall j :: 0 <= j < |chains| && j != k ==> Disjoint(chains[j], ch)
    requires Live(e) ==> forall j :: 0 <= j < Slots(Dir(g, v)) && j != k && Live(Slot(Dir(g, v), j)) ==>
      NameOf(Slot(Dir(g, v), j)) != NameOf(e)
    ensures WellFormed(g, PutEntry(g, v, k, e), chains[k := ch])
  {
    var dir, r := Dir(g, v), PutEntry(g, v, k, e);
    SetSlotReads(dir, k, e);
    assert Dir(g, r) == SetSlot(dir, k, e);
    var all := chains[k := ch];
    forall i, j | 0 <= i < j < Slots(dir)
      ensures Disjoint(all[i], all[j])
    {
      if i == k { assert Disjoint(chains[j], ch); }
    }
    forall j | 0 <= j < Slots(dir) && Live(Slot(Dir(g, r), j))
      ensures OwnsChain(g, r, Slot(Dir(g, r), j), chains[k := ch][j])
    {
      if j != k { assert OwnsChain(g, v, Slot(dir, j), chains[j]); }
    }
  }

  /** Outside slot `k`, two volumes have the same entries, chains and chain contents. */
  ghost predicate AgreeBut(g: Bpb, v: View, chains: seq<seq<nat>>, r: View, rchains: seq<seq<nat>>, k: nat)
    requires WellFormed(g, v, chains) && WellFormed(g, r, rchains)
  {
    && k < Slots(Dir(g, v))
    && forall j :: 0 <= j < Slots(Dir(g, v)) && j != k ==>
      Slot(Dir(g, r), j) == Slot(Dir(g, v), j) && rchains[j] == chains[j] &&
      forall x :: x in chains[j] && x < |v.clus| ==> r.clus[x] == v.clus[x]
  }

  /** Two well-formed volumes that agree outside slot `k` differ in that slot's file only. */
  lemma FilesChange(g: Bpb, v: View, chains: seq<seq<nat>>, r: View, rchains: seq<seq<nat>>, k: nat)
    requires WellFormed(g, v, chains) && WellFormed(g, r, rchains) && AgreeBut(g, v, chains, r, rchains, k)
    ensures Files(g, r, rchains) == Rebound(Table(g, v, chains), k, CellAt(g, r, rchains, k))
  {
    var t, c := Table(g, v, chains), CellAt(g, r, rchains, k);
    forall j | 0 <= j < |t| && j != k
      ensures Table(g, r, rchains)[j] == t[j]
    {
      ConcatFrame(v.clus, r.clus, chains[j]);
    }
    assert Table(g, r, rchains) == t[k := c];
    ToMapUpdate(t, k, c);
  }

  // ----- the operations refine the map -----

  /** The name of a file the driver stores; 8.3 names never start with NUL, and one that
      starts with the deletion mark is written but not found again. */
  ghost predicate Storable(name: FatName) {
    name[0] != DELETED
  }

  /** The map after `name` is bound to `data` by a driver that loses unstorable names. */
  ghost function Bind(files: map<FatName, seq<byte>>, name: FatName, data: seq<byte>): map<FatName, seq<byte>> {
    if Storable(name) then files[name := data] else files
  }

  /** The chains once slot `k`'s file is gone and `ch` is in its place. */
  ghost function Rechained(chains: seq<seq<nat>>, k: int, name: FatName, ch: seq<nat>): seq<seq<nat>>
    requires 0 <= k < |chains|
  {
    chains[k := if Storable(name) then ch else []]
  }

  /** The slot for `name` lacks nothing but its entry once the old content is freed. */
  lemma SlotReady(g: Bpb, v: View, chains: seq<seq<nat>>, name: FatName)
    requires WellFormed(g, v, chains) && WriteSlot(g, v, name).0 >= 0
    ensures var (k, freed) := WriteSlot(g, v, name);
      && k < Slots(Dir(g, v))
      && WellFormedBut(g, freed, chains[k := []], k)
      && Dir(g, freed) == Dir(g, v) && freed.clus == v.clus
      && (forall j :: 0 <= j < k ==> Slot(Dir(g, v), j)[0] != 0)
      && (forall j :: 0 <= j < Slots(Dir(g, v)) && j != k && Live(Slot(Dir(g, v), j)) ==> NameOf(Slot(Dir(g, v), j)) != name)
      && (Live(Slot(Dir(g, v), k)) ==> NameOf(Slot(Dir(g, v), k)) == name)
      && (Live(Slot(Dir(g, v), k)) <==> name in Files(g, v, chains))
  {
    var dir := Dir(g, v);
    var f := FindFrom(dir, name, 0);
    FindExact(dir, name, 0);
    FindIsLookup(g, v, chains, name);
    if f >= 0 {
      ReleaseKeeps(g, v, chains, f);
    } else {
      FreeExact(dir, name, 0);
    }
  }

  /** `w` is `v` with slot `k`'s chain freed and `ch` prepared in its place, ready for an entry. */
  ghost predicate Prepared(g: Bpb, v: View, chains: seq<seq<nat>>, name: FatName, w: View, k: nat, e: Entry, ch: seq<nat>) {
    && WellFormed(g, v, chains) && name[0] != 0 && WriteSlot(g, v, name).0 == k < |chains|
    && WellFormedBut(g, w, chains[k := []], k) && Dir(g, w) == Dir(g, v)
    && NameOf(e) == name && e[11] != 0x0F
    && OwnsChain(g, w, e, ch)
    && (forall j :: 0 <= j < |chains| && j != k ==> Disjoint(chains[j], ch))
    && (forall j, x :: 0 <= j < |chains| && j != k && x in chains[j] && x < |v.clus| ==> w.clus[x] == v.clus[x])
  }

  lemma PutWellFormed(g: Bpb, v: View, chains: seq<seq<nat>>, name: FatName, w: View, k: nat, e: Entry, ch: seq<nat>)
    requires Prepared(g, v, chains, name, w, k, e, ch)
    ensures WellFormed(g, PutEntry(g, w, k, e), Rechained(chains, k, name, ch))
  {
    SlotReady(g, v, chains, name);
    var rchains := Rechained(chains, k, name, ch);
    assert e[0] == NameOf(e)[0];
    assert chains[k := []][k := rchains[k]] == rchains;
    var rest := chains[k := []];
    forall j | 0 <= j < |rest| && j != k
      ensures Disjoint(rest[j], rchains[k])
    {
      assert Disjoint(chains[j], ch);
    }
    PutCompletes(g, w, rest, k, e, rchains[k]);
  }

  lemma RootUnowned(g: Bpb, v: View, chains: seq<seq<nat>>, j: nat)
    requires WellFormed(g, v, chains) && j < |chains|
    ensures g.rootCluster !in chains[j]
  {
    if !Live(Slot(Dir(g, v), j)) { assert chains[j] == []; }
  }

  lemma PutAgrees(g: Bpb, v: View, chains: seq<seq<nat>>, name: FatName, w: View, k: nat, e: Entry, ch: seq<nat>)
    requires Prepared(g, v, chains, name, w, k, e, ch)
    requires WellFormed(g, PutEntry(g, w, k, e), Rechained(chains, k, name, ch))
    ensures AgreeBut(g, v, chains, PutEntry(g, w, k, e), Rechained(chains, k, name, ch), k)
    ensures Slot(Dir(g, PutEntry(g, w, k, e)), k) == e
  {
    var dir, r := Dir(g, v), PutEntry(g, w, k, e);
    SetSlotReads(dir, k, e);
    assert Dir(g, r) == SetSlot(dir, k, e);
    forall j, x | 0 <= j < |chains| && j != k && x in chains[j] && x < |v.clus|
      ensures r.clus[x] == v.clus[x]
    {
      RootUnowned(g, v, chains, j);
    }
  }

  lemma Rebinding<K, V>(t: seq<Cell<K, V>>, k: nat, key: K, value: V)
    requires Distinct(t) && k < |t| && (t[k].Bound? ==> t[k].key == key)
    ensures Rebound(t, k, Bound(key, value)) == ToMap(t)[key := value]
    ensures t[k].Empty? ==> Rebound(t, k, Empty) == ToMap(t)
  {}

  /** Putting an entry for `name` in its slot binds the name to the entry's content. */
  lemma PutBinds(g: Bpb, v: View, chains: seq<seq<nat>>, name: FatName, w: View, k: nat, e: Entry, ch: seq<nat>)
    requires Prepared(g, v, chains, name, w, k, e, ch)
    ensures var r, rchains := PutEntry(g, w, k, e), Rechained(chains, k, name, ch);
      && WellFormed(g, r, rchains)
      && OwnsChain(g, r, e, ch)
      && Files(g, r, rchains) == Bind(Files(g, v, chains), name, Content(g, r, e, ch))
  {
    var r, rchains := PutEntry(g, w, k, e), Rechained(chains, k, name, ch);
    PutWellFormed(g, v, chains, name, w, k, e, ch);
    PutAgrees(g, v, chains, name, w, k, e, ch);
    FilesChange(g, v, chains, r, rchains, k);
    SlotReady(g, v, chains, name);
    assert e[0] == NameOf(e)[0];
    Rebinding(Table(g, v, chains), k, name, Content(g, r, e, ch));
  }

  ghost predicate HasFreeSlot(g: Bpb, v: View)
    requires Shape(g, v)
  {
    exists k :: 0 <= k < Slots(Dir(g, v)) && Slot(Dir(g, v), k)[0] in {0, DELETED}
  }

  ghost predicate HasFreeCluster(raw: seq<word>) {
    exists c :: 2 <= c < |raw| && Link(raw[c]) == 0
  }

  /** The chains after a write. */
  ghost function WriteChains(g: Bpb, v: View, chains: seq<seq<nat>>, name: FatName, data: seq<byte>): seq<seq<nat>>
    requires WellFormed(g, v, chains)
  {
    if !WriteSpec(g, v, name, data).0 then chains else
      FindBounds(Dir(g, v), name, 0);
      var (k, freed) := WriteSlot(g, v, name);
      Rechained(chains, k, name, if |data| == 0 then [] else [FirstFree(freed.raw, 0)])
  }

  /** Freeing an old chain makes the next allocation succeed; without one, nothing is freed. */
  lemma ReleaseMakesRoom(g: Bpb, v: View, chains: seq<seq<nat>>, k: nat)
    requires WellFormed(g, v, chains) && k < Slots(Dir(g, v)) && Live(Slot(Dir(g, v), k))
    ensures chains[k] == [] ==> Release(g, v, k) == v
    ensures chains[k] != [] ==> FirstFree(Release(g, v, k).raw, 0) != 0
  {
    var r := Release(g, v, k);
    if chains[k] != [] {
      ReleaseKeeps(g, v, chains, k);
      var c := chains[k][0];
      FirstFreeExact(r.raw, 0);
      assert c in Elems(chains[k]) && 2 <= c < |r.raw|;
      assert Link(r.raw[c]) == 0;
    }
  }

  /** Slot search and write slot in terms of the map. */
  lemma WriteSlotCases(g: Bpb, v: View, chains: seq<seq<nat>>, name: FatName)
    requires WellFormed(g, v, chains)
    ensures WriteSlot(g, v, name).0 < 0 <==> name !in Files(g, v, chains) && !HasFreeSlot(g, v)
    ensures name !in Files(g, v, chains) ==> WriteSlot(g, v, name).1 == v
    ensures name in Files(g, v, chains) ==>
      var f := FindFrom(Dir(g, v), name, 0);
      0 <= f < |chains| && (if chains[f] == [] then WriteSlot(g, v, name).1 == v else FirstFree(WriteSlot(g, v, name).1.raw, 0) != 0)
  {
    var dir := Dir(g, v);
    var f := FindFrom(dir, name, 0);
    FirstFreeExact(v.raw, 0);
    FindExact(dir, name, 0);
    FindIsLookup(g, v, chains, name);
    if f >= 0 {
      ReleaseMakesRoom(g, v, chains, f);
    } else {
      FreeExact(dir, name, 0);
    }
  }

  lemma CreateBinds(g: Bpb, v: View, chains: seq<seq<nat>>, name: FatName)
    requires WellFormed(g, v, chains) && name[0] != 0 && CreateSpec(g, v, name).0
    ensures WellFormed(g, CreateSpec(g, v, name).1, chains)
    ensures Files(g, CreateSpec(g, v, name).1, chains) == Bind(Files(g, v, chains), name, [])
  {
    SlotReady(g, v, chains, name);
    FindIsLookup(g, v, chains, name);
    FindBounds(Dir(g, v), name, 0);
    var k, e := FreeFrom(Dir(g, v), name, 0), NewEntry(name, 0, 0);
    NewEntryReads(name, 0, 0);
    assert chains[k := []] == chains;
    PutBinds(g, v, chains, name, v, k, e, []);
  }

  /** Create adds an empty file, exactly when the name is new and the directory has room. */
  lemma CreateCorrect(g: Bpb, v: View, chains: seq<seq<nat>>, name: FatName)
    requires WellFormed(g, v, chains) && name[0] != 0
    ensures CreateSpec(g, v, name).0 <==> name !in Files(g, v, chains) && HasFreeSlot(g, v)
    ensures if CreateSpec(g, v, name).0
      then WellFormed(g, CreateSpec(g, v, name).1, chains)
           && Files(g, CreateSpec(g, v, name).1, chains) == Bind(Files(g, v, chains), name, [])
      else CreateSpec(g, v, name).1 == v
  {
    FindIsLookup(g, v, chains, name);
    WriteSlotCases(g, v, chains, name);
    if CreateSpec(g, v, name).0 {
      CreateBinds(g, v, chains, name);
    }
  }

  /** Freeing a chain from a cluster of the table leaves a free cluster, whatever shape the chain has. */
  lemma FreeWalkMakesRoom(raw: seq<word>, c: nat)
    requires InRange(raw) && TableIndex(raw, c) && IsCluster(c)
    ensures FirstFree(FreeWalk(raw, c), 0) != 0
  {
    FreeWalkExact(raw, c);
    FirstFreeExact(FreeWalk(raw, c), 0);
    assert Link(FreeWalk(raw, c)[c]) == 0;
  }

  /** Why a write is refused: the data exceeds a cluster, the name is new and the directory full,
      or no cluster is free and the old file owns none. */
  ghost predicate WriteRefused(g: Bpb, v: View, chains: seq<seq<nat>>, name: FatName, data: seq<byte>)
    requires WellFormed(g, v, chains)
  {
    FindIsLookup(g, v, chains, name);
    FindBounds(Dir(g, v), name, 0);
    || |data| > g.ClusterSize()
    || (name !in Files(g, v, chains) && !HasFreeSlot(g, v))
    || (data != [] && !HasFreeCluster(v.raw) && (name in Files(g, v, chains) ==> chains[FindFrom(Dir(g, v), name, 0)] == []))
  }

  /** A refused write changes nothing, and happens exactly for those reasons. */
  lemma RefusedWrite(g: Bpb, v: View, chains: seq<seq<nat>>, name: FatName, data: seq<byte>)
    requires WellFormed(g, v, chains)
    ensures !WriteSpec(g, v, name, data).0 ==> WriteSpec(g, v, name, data).1 == v
    ensures !WriteSpec(g, v, name, data).0 <==> WriteRefused(g, v, chains, name, data)
  {
    WriteSlotCases(g, v, chains, name);
    FirstFreeExact(v.raw, 0);
    assert HasFreeCluster(v.raw) <==> FirstFree(v.raw, 0) != 0;
    WriteCases(g, v, name, data);
  }

  lemma WriteCases(g: Bpb, v: View, name: FatName, data: seq<byte>)
    requires Walkable(g, v)
    ensures var (k, freed), r := WriteSlot(g, v, name), WriteSpec(g, v, name, data);
      && (r.0 <==> |data| <= g.ClusterSize() && k >= 0 && (data == [] || FirstFree(freed.raw, 0) != 0))
      && (!r.0 ==> r.1 == if |data| > g.ClusterSize() || k < 0 then v else freed)
  {
    FindBounds(Dir(g, v), name, 0);
  }

  /** A successful write binds the name to the data and keeps the volume well-formed. */
  lemma WriteCorrect(g: Bpb, v: View, chains: seq<seq<nat>>, name: FatName, data: seq<byte>)
    requires WellFormed(g, v, chains) && name[0] != 0
    requires WriteSpec(g, v, name, data).0
    ensures var r, rchains := WriteSpec(g, v, name, data).1, WriteChains(g, v, chains, name, data);
      && WellFormed(g, r, rchains)
      && Files(g, r, rchains) == Bind(Files(g, v, chains), name, data)
  {
    var (k, freed) := WriteSlot(g, v, name);
    var w, e, ch := WritePrepared(g, v, chains, name, data);
    PutBinds(g, v, chains, name, w, k, e, ch);
    WrittenContent(g, w, k, e, ch, data);
  }

  lemma WritePrepared(g: Bpb, v: View, chains: seq<seq<nat>>, name: FatName, data: seq<byte>)
    returns (w: View, e: Entry, ch: seq<nat>)
    requires WellFormed(g, v, chains) && name[0] != 0
    requires WriteSpec(g, v, name, data).0
    ensures var k := WriteSlot(g, v, name).0;
      && k >= 0
      && Prepared(g, v, chains, name, w, k, e, ch)
      && WriteSpec(g, v, name, data).1 == PutEntry(g, w, k, e)
      && WriteChains(g, v, chains, name, data) == Rechained(chains, k, name, ch)
      && FileSize(e) == |data| <= g.ClusterSize()
    ensures if data == [] then ch == [] else
      && |ch| == 1 && 2 <= ch[0] < g.Entries() && ch[0] != g.rootCluster
      && w.clus[ch[0]] == ZeroPadded(data, g.ClusterSize())
    ensures var freed := WriteSlot(g, v, name).1;
      if data == [] then FirstCluster(e) == 0 && w.raw == freed.raw
      else FirstCluster(e) == ch[0] < |freed.raw| && Link(freed.raw[ch[0]]) == 0 && w.raw == freed.raw[ch[0] := SetLink(freed.raw[ch[0]], 0x0FFF_FFFF)]
  {
    var (k, freed) := WriteSlot(g, v, name);
    if |data| == 0 {
      EmptyReady(g, v, chains, name);
      CommitIsPut(g, freed, k, name, data);
      w, e, ch := freed, NewEntry(name, 0, 0), [];
    } else {
      TakeReady(g, v, chains, name, data);
      CommitIsPut(g, freed, k, name, data);
      var c := FirstFree(freed.raw, 0);
      NewEntryReads(name, c, |data|);
      w, e, ch := Take(freed, c, ZeroPadded(data, g.ClusterSize())), NewEntry(name, c, |data|), [c];
    }
  }

  lemma EmptyReady(g: Bpb, v: View, chains: seq<seq<nat>>, name: FatName)
    requires WellFormed(g, v, chains) && name[0] != 0 && WriteSlot(g, v, name).0 >= 0
    ensures var (k, freed) := WriteSlot(g, v, name);
      Prepared(g, v, chains, name, freed, k, NewEntry(name, 0, 0), [])
    ensures FirstCluster(NewEntry(name, 0, 0)) == 0 && FileSize(NewEntry(name, 0, 0)) == 0
  {
    SlotReady(g, v, chains, name);
    NewEntryReads(name, 0, 0);
  }

  lemma TakeReady(g: Bpb, v: View, chains: seq<seq<nat>>, name: FatName, data: seq<byte>)
    requires WellFormed(g, v, chains) && name[0] != 0
    requires WriteSpec(g, v, name, data).0 && data != []
    ensures var (k, freed) := WriteSlot(g, v, name);
      var c := FirstFree(freed.raw, 0);
      && c != g.rootCluster
      && Prepared(g, v, chains, name, Take(freed, c, ZeroPadded(data, g.ClusterSize())), k, NewEntry(name, c, |data|), [c])
  {
    var (k, freed) := WriteSlot(g, v, name);
    SlotReady(g, v, chains, name);
    FirstFreeExact(freed.raw, 0);
    var c, buf := FirstFree(freed.raw, 0), ZeroPadded(data, g.ClusterSize());
    TakeKeeps(g, freed, chains[k := []], k, c, buf);
    NewEntryReads(name, c, |data|);
    var rest := chains[k := []];
    forall j | 0 <= j < |chains| && j != k
      ensures Disjoint(chains[j], [c])
    {
      assert c !in rest[j];
    }
  }

  lemma WrittenContent(g: Bpb, w: View, k: nat, e: Entry, ch: seq<nat>, data: seq<byte>)
    requires Shape(g, w) && k < Slots(Dir(g, w))
    requires OwnsChain(g, PutEntry(g, w, k, e), e, ch) && FileSize(e) == |data| <= g.ClusterSize()
    requires if data == [] then ch == [] else
      && |ch| == 1 && 2 <= ch[0] < g.Entries() && ch[0] != g.rootCluster
      && w.clus[ch[0]] == ZeroPadded(data, g.ClusterSize())
    ensures Content(g, PutEntry(g, w, k, e), e, ch) == data
  {
    if data != [] {
      assert ch[1..] == [];
      assert Concat(PutEntry(g, w, k, e).clus, ch) == w.clus[ch[0]];
    }
  }

  /** A search finds the slot whose chain holds what the map says, or nothing when the map has nothing. */
  lemma LookupExact(g: Bpb, v: View, chains: seq<seq<nat>>, name: FatName) returns (f: int, first: nat, size: word, ch: seq<nat>)
    requires WellFormed(g, v, chains)
    ensures f == FindFrom(Dir(g, v), name, 0)
    ensures f < 0 <==> name !in Files(g, v, chains)
    ensures f >= 0 ==>
      && f < Slots(Dir(g, v))
      && FirstCluster(Slot(Dir(g, v), f)) == first && FileSize(Slot(Dir(g, v), f)) == size
      && IsChain(v.raw, first, ch) && size <= Times(|ch|, g.ClusterSize())
      && size <= |Concat(v.clus, ch)| && Files(g, v, chains)[name] == Concat(v.clus, ch)[..size]
  {
    f, first, size, ch := FindFrom(Dir(g, v), name, 0), 0, 0, [];
    FindIsLookup(g, v, chains, name);
    FindExact(Dir(g, v), name, 0);
    if f >= 0 {
      first, size, ch := FirstCluster(Slot(Dir(g, v), f)), FileSize(Slot(Dir(g, v), f)), chains[f];
      FilesAt(g, v, chains, f);
      ConcatLength(g, v, first, ch);
    }
  }

  lemma DeleteSucceeds(g: Bpb, v: View, chains: seq<seq<nat>>, name: FatName)
    requires WellFormed(g, v, chains)
    ensures Walkable(g, v) && (DeleteSpec(g, v, name).0 <==> name in Files(g, v, chains))
  {
    FindIsLookup(g, v, chains, name);
  }

  /** The view and chains once slot `f` is marked deleted. */
  lemma DeletedSlot(g: Bpb, v: View, chains: seq<seq<nat>>, f: nat)
    requires WellFormed(g, v, chains) && f < Slots(Dir(g, v)) && Live(Slot(Dir(g, v), f))
    ensures var r := PutEntry(g, Release(g, v, f), f, Slot(Dir(g, v), f)[0 := DELETED]);
      && WellFormed(g, r, chains[f := []])
      && AgreeBut(g, v, chains, r, chains[f := []], f)
      && !Live(Slot(Dir(g, r), f))
  {
    var dir := Dir(g, v);
    var e, w, rchains := Slot(dir, f)[0 := DELETED], Release(g, v, f), chains[f := []];
    ReleaseKeeps(g, v, chains, f);
    assert rchains[f := []] == rchains;
    PutCompletes(g, w, rchains, f, e, []);
    var r := PutEntry(g, w, f, e);
    SetSlotReads(dir, f, e);
    assert Dir(g, r) == SetSlot(dir, f, e);
    forall j, x | 0 <= j < |chains| && j != f && x in chains[j] && x < |v.clus|
      ensures r.clus[x] == v.clus[x]
    {
      RootUnowned(g, v, chains, j);
    }
  }

  /** Delete removes the name, exactly when it is there, and keeps the volume well-formed. */
  lemma DeleteCorrect(g: Bpb, v: View, chains: seq<seq<nat>>, name: FatName)
    requires WellFormed(g, v, chains)
    ensures DeleteSpec(g, v, name).0 <==> name in Files(g, v, chains)
    ensures !DeleteSpec(g, v, name).0 ==> DeleteSpec(g, v, name).1 == v
    ensures DeleteSpec(g, v, name).0 ==>
      var f := FindFrom(Dir(g, v), name, 0);
      && 0 <= f < |chains|
      && WellFormed(g, DeleteSpec(g, v, name).1, chains[f := []])
      && Files(g, DeleteSpec(g, v, name).1, chains[f := []]) == Files(g, v, chains) - {name}
  {
    FindExact(Dir(g, v), name, 0);
    FindIsLookup(g, v, chains, name);
    var f := FindFrom(Dir(g, v), name, 0);
    if f >= 0 {
      DeletedSlot(g, v, chains, f);
      var r := DeleteSpec(g, v, name).1;
      FilesChange(g, v, chains, r, chains[f := []], f);
      assert CellAt(g, r, chains[f := []], f) == Empty;
      Unbinding(Table(g, v, chains), f, name);
    }
  }

  lemma Unbinding<K, V>(t: seq<Cell<K, V>>, k: nat, key: K)
    requires Distinct(t) && k < |t| && t[k].Bound? && t[k].key == key
    ensures Rebound(t, k, Empty) == ToMap(t) - {key}
  {}
}
