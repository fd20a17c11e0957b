/** Whole-run and round-trip properties of the file operations. */
module Fat32Theorems {
  import opened Bytes
  import opened Fat32Layout
  import opened Fat32Chains
  import opened Fat32Directory
  import opened Fat32Files
  import opened Fat32Operations

  // ----- runs -----

  datatype Op = Create(name: FatName) | Write(name: FatName, data: seq<byte>) | Delete(name: FatName)

  ghost function Step(g: Bpb, v: View, op: Op): (bool, View)
    requires Walkable(g, v)
  {
    match op
    case Create(name) => CreateSpec(g, v, name)
    case Write(name, data) => WriteSpec(g, v, name, data)
    case Delete(name) => DeleteSpec(g, v, name)
  }

  ghost function StepChains(g: Bpb, v: View, chains: seq<seq<nat>>, op: Op): seq<seq<nat>>
    requires WellFormed(g, v, chains)
  {
    match op
    case Create(_) => chains
    case Write(name, data) => WriteChains(g, v, chains, name, data)
    case Delete(name) =>
      DeleteCorrect(g, v, chains, name);
      if DeleteSpec(g, v, name).0 then chains[FindFrom(Dir(g, v), name, 0) := []] else chains
  }

  /** What the map becomes when the driver reports success or refusal. */
  ghost function MapStep(files: map<FatName, seq<byte>>, op: Op, ok: bool): map<FatName, seq<byte>> {
    if !ok then files else
      match op
      case Create(name) => Bind(files, name, [])
      case Write(name, data) => Bind(files, name, data)
      case Delete(name) => files - {name}
  }

  lemma StepRefines(g: Bpb, v: View, chains: seq<seq<nat>>, op: Op)
    requires WellFormed(g, v, chains) && op.name[0] != 0
    ensures var (ok, r) := Step(g, v, op);
      && (!ok ==> r == v && StepChains(g, v, chains, op) == chains)
      && WellFormed(g, r, StepChains(g, v, chains, op))
      && Files(g, r, StepChains(g, v, chains, op)) == MapStep(Files(g, v, chains), op, ok)
  {
    match op
    case Create(name) => CreateCorrect(g, v, chains, name);
    case Write(name, data) =>
      RefusedWrite(g, v, chains, name, data);
      if WriteSpec(g, v, name, data).0 {
        WriteCorrect(g, v, chains, name, data);
      }
    case Delete(name) => DeleteCorrect(g, v, chains, name);
  }

  /** The reported results and the final view of a run; a driver on a volume it cannot walk stops. */
  ghost function Run(g: Bpb, v: View, ops: seq<Op>): (seq<bool>, View)
    decreases |ops|
  {
    if ops == [] || !Walkable(g, v) then ([], v) else
      var (ok, r) := Step(g, v, ops[0]);
      var (oks, w) := Run(g, r, ops[1..]);
      ([ok] + oks, w)
  }

  ghost function Replay(files: map<FatName, seq<byte>>, ops: seq<Op>, oks: seq<bool>): map<FatName, seq<byte>>
    requires |oks| == |ops|
    decreases |ops|
  {
    if ops == [] then files else Replay(MapStep(files, ops[0], oks[0]), ops[1..], oks[1..])
  }

  /** Over every run the volume stays well-formed and stores what replaying the successful
      operations on the map gives. */
  lemma {:induction false} RunRefines(g: Bpb, v: View, chains: seq<seq<nat>>, ops: seq<Op>) returns (ch: seq<seq<nat>>)
    requires WellFormed(g, v, chains) && forall i :: 0 <= i < |ops| ==> ops[i].name[0] != 0
    ensures var (oks, w) := Run(g, v, ops);
      && |oks| == |ops|
      && WellFormed(g, w, ch)
      && Files(g, w, ch) == Replay(Files(g, v, chains), ops, oks)
    decreases |ops|
  {
    if ops == [] {
      ch := chains;
    } else {
      StepRefines(g, v, chains, ops[0]);
      var (ok, r) := Step(g, v, ops[0]);
      ch := RunRefines(g, r, StepChains(g, v, chains, ops[0]), ops[1..]);
      assert ([ok] + Run(g, r, ops[1..]).0)[1..] == Run(g, r, ops[1..]).0;
    }
  }

  // ----- the table -----

  ghost predicate SameTop(raw: seq<word>, r: seq<word>) {
    |r| == |raw| && forall i :: 0 <= i < |raw| ==> r[i] / 0x1000_0000 == raw[i] / 0x1000_0000
  }

  lemma WalkKeepsTop(raw: seq<word>, c: nat)
    requires InRange(raw) && TableIndex(raw, c)
    ensures SameTop(raw, FreeWalk(raw, c))
  {
    FreeWalkExact(raw, c);
  }

  lemma SlotKeepsTop(g: Bpb, v: View, name: FatName)
    requires Walkable(g, v)
    ensures SameTop(v.raw, WriteSlot(g, v, name).1.raw)
  {
    var dir := Dir(g, v);
    FindBounds(dir, name, 0);
    if FindFrom(dir, name, 0) >= 0 {
      WalkKeepsTop(v.raw, FirstCluster(Slot(dir, FindFrom(dir, name, 0))));
    }
  }

  lemma CommitKeepsTop(g: Bpb, freed: View, k: nat, name: FatName, data: seq<byte>)
    requires Shape(g, freed) && k < Slots(Dir(g, freed)) && |data| <= g.ClusterSize()
    ensures SameTop(freed.raw, CommitSpec(g, freed, k, name, data).1.raw)
  {}

  lemma WriteKeepsTop(g: Bpb, v: View, name: FatName, data: seq<byte>)
    requires Walkable(g, v)
    ensures SameTop(v.raw, WriteSpec(g, v, name, data).1.raw)
  {
    FindBounds(Dir(g, v), name, 0);
    SlotKeepsTop(g, v, name);
    var (k, freed) := WriteSlot(g, v, name);
    if |data| <= g.ClusterSize() && k >= 0 {
      CommitKeepsTop(g, freed, k, name, data);
    }
  }

  /** No operation touches the top 4 bits of any table entry. */
  lemma TopBitsKept(g: Bpb, v: View, op: Op)
    requires Walkable(g, v)
    ensures SameTop(v.raw, Step(g, v, op).1.raw)
  {
    match op
    case Create(_) =>
    case Write(name, data) => WriteKeepsTop(g, v, name, data);
    case Delete(name) =>
      FindBounds(Dir(g, v), name, 0);
      var f := FindFrom(Dir(g, v), name, 0);
      if f >= 0 {
        WalkKeepsTop(v.raw, FirstCluster(Slot(Dir(g, v), f)));
      }
  }

  /** A newly written file is where a search finds it. */
  lemma NewFileFound(g: Bpb, v: View, chains: seq<seq<nat>>, name: FatName, w: View, k: nat, e: Entry, ch: seq<nat>)
    requires Prepared(g, v, chains, name, w, k, e, ch) && Storable(name)
    ensures FindFrom(Dir(g, PutEntry(g, w, k, e)), name, 0) == k
    ensures Slot(Dir(g, PutEntry(g, w, k, e)), k) == e
  {
    var r, rchains := PutEntry(g, w, k, e), Rechained(chains, k, name, ch);
    PutWellFormed(g, v, chains, name, w, k, e, ch);
    PutAgrees(g, v, chains, name, w, k, e, ch);
    assert e[0] == NameOf(e)[0];
    FindExact(Dir(g, r), name, 0);
  }

  /** Writing a new file and deleting it gives back the table, bit for bit. */
  lemma WriteThenDeleteTable(g: Bpb, v: View, chains: seq<seq<nat>>, name: FatName, data: seq<byte>)
    requires WellFormed(g, v, chains) && name[0] != 0 && Storable(name)
    requires name !in Files(g, v, chains) && WriteSpec(g, v, name, data).0
    requires Walkable(g, WriteSpec(g, v, name, data).1)
    ensures DeleteSpec(g, WriteSpec(g, v, name, data).1, name).0
    ensures DeleteSpec(g, WriteSpec(g, v, name, data).1, name).1.raw == v.raw
  {
    WriteSlotCases(g, v, chains, name);
    var k := WriteSlot(g, v, name).0;
    var w, e, ch := WritePrepared(g, v, chains, name, data);
    NewFileFound(g, v, chains, name, w, k, e, ch);
    if data != [] {
      AllocThenFree(v.raw, ch[0]);
    }
  }

  lemma BindUnbind<K, V>(m: map<K, V>, k: K, v: V)
    requires k !in m
    ensures m[k := v] - {k} == m
  {}

  /** Writing a new file and deleting it gives back the table and the map. */
  lemma WriteThenDelete(g: Bpb, v: View, chains: seq<seq<nat>>, name: FatName, data: seq<byte>) returns (d: View, ch: seq<seq<nat>>)
    requires WellFormed(g, v, chains) && name[0] != 0 && Storable(name)
    requires name !in Files(g, v, chains) && WriteSpec(g, v, name, data).0
    ensures Walkable(g, WriteSpec(g, v, name, data).1)
    ensures DeleteSpec(g, WriteSpec(g, v, name, data).1, name) == (true, d)
    ensures d.raw == v.raw
    ensures WellFormed(g, d, ch) && Files(g, d, ch) == Files(g, v, chains)
  {
    var r, rchains := WriteSpec(g, v, name, data).1, WriteChains(g, v, chains, name, data);
    WriteCorrect(g, v, chains, name, data);
    BindUnbind(Files(g, v, chains), name, data);
    WriteThenDeleteTable(g, v, chains, name, data);
    d := DeleteSpec(g, r, name).1;
    ch := AfterDelete(g, r, rchains, name);
  }

  lemma AfterDelete(g: Bpb, r: View, rchains: seq<seq<nat>>, name: FatName) returns (ch: seq<seq<nat>>)
    requires WellFormed(g, r, rchains) && DeleteSpec(g, r, name).0
    ensures WellFormed(g, DeleteSpec(g, r, name).1, ch)
    ensures Files(g, DeleteSpec(g, r, name).1, ch) == Files(g, r, rchains) - {name}
  {
    DeleteCorrect(g, r, rchains, name);
    ch := rchains[FindFrom(Dir(g, r), name, 0) := []];
  }

  // ----- leaks -----

  /** Every used cluster is the root directory or belongs to a file. */
  ghost predicate NoLeak(g: Bpb, v: View, chains: seq<seq<nat>>) {
    forall c :: 2 <= c < |v.raw| && Link(v.raw[c]) != 0 ==> c == g.rootCluster || Owned(chains, c)
  }

  ghost predicate Owned(chains: seq<seq<nat>>, c: nat) {
    exists j :: 0 <= j < |chains| && c in chains[j]
  }

  /** The operations that take a cluster for a file that will not be found. */
  ghost predicate Loses(op: Op, ok: bool) {
    ok && op.Write? && op.data != [] && op.name[0] == 0xE5
  }

  /** No operation loses a cluster, except that a write of data under a name whose first byte is the
      deletion mark always does. */
  lemma StepLeaks(g: Bpb, v: View, chains: seq<seq<nat>>, op: Op)
    requires WellFormed(g, v, chains) && NoLeak(g, v, chains) && op.name[0] != 0
    ensures NoLeak(g, Step(g, v, op).1, StepChains(g, v, chains, op)) <==> !Loses(op, Step(g, v, op).0)
  {
    var ok := Step(g, v, op).0;
    StepRefines(g, v, chains, op);
    if ok {
      match op {
        case Create(name) => FindBounds(Dir(g, v), name, 0);
        case Write(name, data) => WriteLeaks(g, v, chains, name, data);
        case Delete(name) => DeleteLeaks(g, v, chains, name);
      }
    }
  }

  lemma DeleteLeaks(g: Bpb, v: View, chains: seq<seq<nat>>, name: FatName)
    requires WellFormed(g, v, chains) && NoLeak(g, v, chains) && DeleteSpec(g, v, name).0
    ensures NoLeak(g, DeleteSpec(g, v, name).1, StepChains(g, v, chains, Delete(name)))
  {
    var f := FindFrom(Dir(g, v), name, 0);
    FindBounds(Dir(g, v), name, 0);
    ReleaseKeeps(g, v, chains, f);
    ReleasedOwned(g, v, chains, f, Release(g, v, f).raw);
    assert DeleteSpec(g, v, name).1.raw == Release(g, v, f).raw;
  }

  /** Once slot `k`'s chain is freed, the clusters still in use belong to the others. */
  lemma ReleasedOwned(g: Bpb, v: View, chains: seq<seq<nat>>, k: nat, raw: seq<word>)
    requires NoLeak(g, v, chains) && k < |chains| && raw == Zeroed(v.raw, Elems(chains[k]))
    ensures forall c :: 2 <= c < |raw| && Link(raw[c]) != 0 ==> c == g.rootCluster || Owned(chains[k := []], c)
  {
    forall c | 2 <= c < |raw| && Link(raw[c]) != 0 && c != g.rootCluster
      ensures Owned(chains[k := []], c)
    {
      assert c !in Elems(chains[k]) && Link(v.raw[c]) != 0;
      var j :| 0 <= j < |chains| && c in chains[j];
      assert chains[k := []][j] == chains[j];
    }
  }

  lemma WriteLeaks(g: Bpb, v: View, chains: seq<seq<nat>>, name: FatName, data: seq<byte>)
    requires WellFormed(g, v, chains) && NoLeak(g, v, chains) && name[0] != 0 && WriteSpec(g, v, name, data).0
    ensures NoLeak(g, WriteSpec(g, v, name, data).1, WriteChains(g, v, chains, name, data)) <==> data == [] || Storable(name)
  {
    var (k, freed) := WriteSlot(g, v, name);
    var w, e, ch := WritePrepared(g, v, chains, name, data);
    SlotFreed(g, v, chains, name);
    ReleasedOwned(g, v, chains, k, freed.raw);
    var rest, after := chains[k := []], Rechained(chains, k, name, ch);
    assert WriteSpec(g, v, name, data).1.raw == w.raw && WriteChains(g, v, chains, name, data) == after;
    forall c | 2 <= c < |w.raw| && Link(w.raw[c]) != 0 && c != g.rootCluster && c !in ch
      ensures Owned(after, c)
    {
      assert w.raw[c] == freed.raw[c];
      var j :| 0 <= j < |rest| && c in rest[j];
      assert after[j] == rest[j];
    }
    if data != [] {
      NewOwner(g, v, chains, name, data, k, freed, ch[0], after);
    }
  }

  /** The slot of a write holds no chain, or its chain has been freed. */
  lemma SlotFreed(g: Bpb, v: View, chains: seq<seq<nat>>, name: FatName)
    requires WellFormed(g, v, chains) && WriteSlot(g, v, name).0 >= 0
    ensures var (k, freed) := WriteSlot(g, v, name); k < |chains| && freed.raw == Zeroed(v.raw, Elems(chains[k]))
  {
    var dir := Dir(g, v);
    var f := FindFrom(dir, name, 0);
    FindBounds(dir, name, 0);
    if f >= 0 {
      ReleaseKeeps(g, v, chains, f);
    } else {
      FreeExact(dir, name, 0);
      var k := FreeFrom(dir, name, 0);
      assert !Live(Slot(dir, k)) && Elems(chains[k]) == {};
      assert Zeroed(v.raw, {}) == v.raw;
    }
  }

  /** The cluster taken is in use afterwards, and is a file's exactly if the name can be found. */
  lemma NewOwner(g: Bpb, v: View, chains: seq<seq<nat>>, name: FatName, data: seq<byte>, k: nat, freed: View, c: nat, after: seq<seq<nat>>)
    requires WellFormed(g, v, chains) && name[0] != 0 && WriteSpec(g, v, name, data).0 && data != []
    requires (k, freed) == WriteSlot(g, v, name) && k < |chains| && c == FirstFree(freed.raw, 0)
    requires after == Rechained(chains, k, name, [c])
    ensures var r := WriteSpec(g, v, name, data).1; c < |r.raw| && Link(r.raw[c]) != 0 && c != g.rootCluster
    ensures Owned(after, c) <==> Storable(name)
  {
    TakeReady(g, v, chains, name, data);
    CommitIsPut(g, freed, k, name, data);
    SlotReady(g, v, chains, name);
    assert c in after[k] <==> Storable(name);
    forall j | 0 <= j < |chains| && j != k
      ensures c !in after[j]
    {
      FreeIsUnowned(g, freed, chains[k := []], k, c, j);
    }
  }

  /** The operations of a run, with their results, that lose a cluster. */
  ghost predicate NoneLoses(ops: seq<Op>, oks: seq<bool>) {
    forall i :: 0 <= i < |ops| && i < |oks| ==> !Loses(ops[i], oks[i])
  }

  /** Over every run that stores no data under such a name, every cluster in use is accounted for. */
  lemma {:induction false} RunLeaksNothing(g: Bpb, v: View, chains: seq<seq<nat>>, ops: seq<Op>) returns (ch: seq<seq<nat>>)
    requires WellFormed(g, v, chains) && NoLeak(g, v, chains) && forall i :: 0 <= i < |ops| ==> ops[i].name[0] != 0
    requires NoneLoses(ops, Run(g, v, ops).0)
    ensures WellFormed(g, Run(g, v, ops).1, ch) && NoLeak(g, Run(g, v, ops).1, ch)
    decreases |ops|
  {
    if ops == [] {
      ch := chains;
    } else {
      StepRefines(g, v, chains, ops[0]);
      StepLeaks(g, v, chains, ops[0]);
      var (ok, r) := Step(g, v, ops[0]);
      var oks := Run(g, r, ops[1..]).0;
      assert Run(g, v, ops).0 == [ok] + oks;
      assert !Loses(ops[0], ([ok] + oks)[0]);
      forall i | 0 <= i < |ops[1..]| && i < |oks|
        ensures !Loses(ops[1..][i], oks[i])
      {
        assert ops[1..][i] == ops[i + 1] && oks[i] == ([ok] + oks)[i + 1];
      }
      ch := RunLeaksNothing(g, r, StepChains(g, v, chains, ops[0]), ops[1..]);
    }
  }
}
