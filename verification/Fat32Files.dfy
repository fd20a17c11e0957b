/** The volume as a map from 8.3 names to contents, and the file operations on its view. */
module Fat32Files {
  import opened Bytes
  import opened Fat32Layout
  import opened Fat32Chains
  import opened Fat32Directory
  import opened SlotTable

  // ----- well-formed volumes -----

  ghost predicate Shape(g: Bpb, v: View) {
    && 1 <= g.sectorsPerCluster < 0x100
    && |v.raw| == |v.clus| == g.Entries()
    && 2 <= g.rootCluster < g.Entries() <= END_OF_CHAIN
    && forall c :: 2 <= c < g.Entries() ==> |v.clus[c]| == g.ClusterSize()
  }

  /** The root directory is one cluster. */
  ghost function Dir(g: Bpb, v: View): (dir: seq<byte>)
    requires Shape(g, v)
    ensures |dir| == 32 * Slots(dir) == g.ClusterSize()
  {
    v.clus[g.rootCluster]
  }

  /** Slot `k` holds a file whose clusters are `ch` and are enough for its size. */
  ghost predicate OwnsChain(g: Bpb, v: View, e: Entry, ch: seq<nat>) {
    && IsChain(v.raw, FirstCluster(e), ch)
    && g.rootCluster !in ch
    && FileSize(e) <= Times(|ch|, g.ClusterSize())
  }

  ghost predicate Disjoint(ch: seq<nat>, dh: seq<nat>) {
    forall x :: x in ch ==> x !in dh
  }

  /** Everything well-formedness says that does not involve slot `k`. */
  ghost predicate WellFormedBut(g: Bpb, v: View, chains: seq<seq<nat>>, k: int) {
    && Shape(g, v)
    && InRange(v.raw)
    && Link(v.raw[g.rootCluster]) != 0
    && var dir := Dir(g, v);
    && |chains| == Slots(dir)
    && (forall j :: 0 <= j < Slots(dir) && j != k ==>
      if Live(Slot(dir, j)) then OwnsChain(g, v, Slot(dir, j), chains[j]) else chains[j] == [])
    && (forall i, j :: 0 <= i < j < Slots(dir) && i != k && j != k ==> Disjoint(chains[i], chains[j]))
    && (forall i, j :: 0 <= i < j < Slots(dir) && i != k && j != k && Live(Slot(dir, i)) && Live(Slot(dir, j)) ==>
      NameOf(Slot(dir, i)) != NameOf(Slot(dir, j)))
  }

  /** Live names are distinct; every live slot owns a chain that ends, is in use, avoids the
      root directory and shares no cluster with another; unused slots come last. */
  ghost predicate WellFormed(g: Bpb, v: View, chains: seq<seq<nat>>) {
    && WellFormedBut(g, v, chains, -1)
    && ZeroTail(Dir(g, v))
  }

  /** The chains are no free choice: the table and the directory determine them. */
  lemma ChainsDetermined(g: Bpb, v: View, chains: seq<seq<nat>>, others: seq<seq<nat>>)
    requires WellFormed(g, v, chains) && WellFormed(g, v, others)
    ensures chains == others
  {
    var dir := Dir(g, v);
    forall j | 0 <= j < |chains|
      ensures chains[j] == others[j]
    {
      if Live(Slot(dir, j)) {
        ChainUnique(v.raw, FirstCluster(Slot(dir, j)), chains[j], others[j]);
      }
    }
  }

  // ----- contents -----

  ghost function Concat(clus: seq<seq<byte>>, ch: seq<nat>): seq<byte> {
    if ch == [] then []
    else (if ch[0] < |clus| then clus[ch[0]] else []) + Concat(clus, ch[1..])
  }

  lemma {:induction false} ConcatLength(g: Bpb, v: View, c: nat, ch: seq<nat>)
    requires Shape(g, v) && IsChain(v.raw, c, ch)
    ensures |Concat(v.clus, ch)| == Times(|ch|, g.ClusterSize())
    decreases |ch|
  {
    if ch != [] {
      ConcatLength(g, v, Link(v.raw[c]), ch[1..]);
    }
  }

  lemma {:induction false} ConcatFrame(clus: seq<seq<byte>>, more: seq<seq<byte>>, ch: seq<nat>)
    requires |clus| == |more| && forall x :: x in ch && x < |clus| ==> clus[x] == more[x]
    ensures Concat(clus, ch) == Concat(more, ch)
  {
    if ch != [] {
      ConcatFrame(clus, more, ch[1..]);
    }
  }

  /** Cluster `i` of a chain supplies the bytes from `i` cluster sizes on. */
  lemma {:induction false} ConcatAt(g: Bpb, v: View, c: nat, ch: seq<nat>, i: nat)
    requires Shape(g, v) && IsChain(v.raw, c, ch) && i < |ch|
    ensures ch[i] < |v.clus| && Times(i, g.ClusterSize()) + g.ClusterSize() <= |Concat(v.clus, ch)|
    ensures Concat(v.clus, ch)[Times(i, g.ClusterSize())..Times(i, g.ClusterSize()) + g.ClusterSize()] == v.clus[ch[i]]
    decreases |ch|
  {
    var n := g.ClusterSize();
    ConcatLength(g, v, Link(v.raw[c]), ch[1..]);
    if i > 0 {
      ConcatAt(g, v, Link(v.raw[c]), ch[1..], i - 1);
      Shifted(v.clus[ch[0]], Concat(v.clus, ch[1..]), Times(i - 1, n), n);
    }
  }

  /** Once the first `i` clusters of a chain are copied, copying the next one extends the copy. */
  lemma ConcatNext(g: Bpb, v: View, c: nat, ch: seq<nat>, i: nat, b: seq<byte>, r: seq<byte>)
    requires Shape(g, v) && IsChain(v.raw, c, ch) && i < |ch| && ch[i] < |v.clus|
    requires Times(i, g.ClusterSize()) + g.ClusterSize() <= |b| == |r|
    requires Times(i, g.ClusterSize()) <= |Concat(v.clus, ch)|
    requires b[..Times(i, g.ClusterSize())] == Concat(v.clus, ch)[..Times(i, g.ClusterSize())]
    requires r[..Times(i, g.ClusterSize())] == b[..Times(i, g.ClusterSize())]
    requires r[Times(i, g.ClusterSize())..Times(i, g.ClusterSize()) + g.ClusterSize()] == v.clus[ch[i]]
    ensures Times(i + 1, g.ClusterSize()) <= |Concat(v.clus, ch)|
    ensures r[..Times(i + 1, g.ClusterSize())] == Concat(v.clus, ch)[..Times(i + 1, g.ClusterSize())]
  {
    ConcatAt(g, v, c, ch, i);
    var n, all := Times(i, g.ClusterSize()), Concat(v.clus, ch);
    assert r[..n + g.ClusterSize()] == r[..n] + r[n..n + g.ClusterSize()];
    assert all[..n + g.ClusterSize()] == all[..n] + all[n..n + g.ClusterSize()];
  }

  lemma Shifted(head: seq<byte>, tail: seq<byte>, at: nat, n: nat)
    requires |head| == n && at + n <= |tail|
    ensures (head + tail)[n + at..n + at + n] == tail[at..at + n]
  {}

  /** The first `size` bytes of the chain's concatenated clusters. */
  ghost function Content(g: Bpb, v: View, e: Entry, ch: seq<nat>): (data: seq<byte>)
    requires Shape(g, v) && OwnsChain(g, v, e, ch)
    ensures |data| == FileSize(e)
  {
    ConcatLength(g, v, FirstCluster(e), ch);
    Concat(v.clus, ch)[..FileSize(e)]
  }

  /** Slot `k` as a binding of its name to its content. */
  ghost function CellAt(g: Bpb, v: View, chains: seq<seq<nat>>, k: nat): Cell<FatName, seq<byte>>
    requires WellFormed(g, v, chains) && k < Slots(Dir(g, v))
  {
    var e := Slot(Dir(g, v), k);
    if Live(e) then Bound(NameOf(e), Content(g, v, e, chains[k])) else Empty
  }

  ghost function Table(g: Bpb, v: View, chains: seq<seq<nat>>): (t: seq<Cell<FatName, seq<byte>>>)
    requires WellFormed(g, v, chains)
    ensures |t| == Slots(Dir(g, v)) && Distinct(t)
  {
    seq(Slots(Dir(g, v)), k requires 0 <= k < Slots(Dir(g, v)) => CellAt(g, v, chains, k))
  }

  /** What the volume stores: each live name with the content of its slot. */
  ghost function Files(g: Bpb, v: View, chains: seq<seq<nat>>): map<FatName, seq<byte>>
    requires WellFormed(g, v, chains)
  {
    ToMap(Table(g, v, chains))
  }

  lemma FilesAt(g: Bpb, v: View, chains: seq<seq<nat>>, k: nat)
    requires WellFormed(g, v, chains) && k < Slots(Dir(g, v)) && Live(Slot(Dir(g, v), k))
    ensures NameOf(Slot(Dir(g, v), k)) in Files(g, v, chains)
    ensures Files(g, v, chains)[NameOf(Slot(Dir(g, v), k))] == Content(g, v, Slot(Dir(g, v), k), chains[k])
  {
    ToMapAt(Table(g, v, chains), k);
  }

  /** A search finds a name exactly when the map has it. */
  lemma FindIsLookup(g: Bpb, v: View, chains: seq<seq<nat>>, name: FatName)
    requires WellFormed(g, v, chains)
    ensures FindFrom(Dir(g, v), name, 0) >= 0 <==> name in Files(g, v, chains)
  {
    var dir := Dir(g, v);
    FindExact(dir, name, 0);
    if FindFrom(dir, name, 0) >= 0 {
      FilesAt(g, v, chains, FindFrom(dir, name, 0));
    }
    if name in Files(g, v, chains) {
      var k := SlotOf(Table(g, v, chains), name);
      assert Table(g, v, chains)[k] == CellAt(g, v, chains, k);
    }
  }
}
