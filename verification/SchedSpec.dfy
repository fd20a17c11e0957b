/** The round-robin scheduler as a state machine: who runs, and what each suspended thread saved. */
module SchedSpec {
  import opened Bytes

  const SCHED_MAX_THREADS := 16

  datatype ThreadState = Ready | Running | Dead

  /** The registers a switch saves and restores; `esp` is the stack pointer after the return. */
  datatype Frame = Frame(ebp: word, edi: word, esi: word, ebx: word, eflags: word, eip: word, esp: nat)

  /** Thread states, the current thread, the frames of suspended threads, and the CPU. */
  datatype Machine = Machine(states: seq<ThreadState>, current: nat, saved: seq<Frame>, cpu: Frame, halted: bool)

  /** Until everything is dead exactly one thread runs, the current one. */
  ghost predicate SchedInv(m: Machine) {
    && 1 <= |m.states| <= SCHED_MAX_THREADS
    && |m.saved| == |m.states|
    && m.current < |m.states|
    && if m.halted then forall i :: 0 <= i < |m.states| ==> m.states[i] == Dead
       else forall i :: 0 <= i < |m.states| ==> (m.states[i] == Running <==> i == m.current)
  }

  /** The first thread, from `i` places after the current one, that could run, or -1. */
  function NextFrom(states: seq<ThreadState>, current: nat, i: nat): (r: int)
    requires current < |states|
    decreases |states| + 1 - i
  {
    if i > |states| then -1
    else
      var idx := (current + i) % |states|;
      if states[idx] == Ready || states[idx] == Running then idx else NextFrom(states, current, i + 1)
  }

  /** The state once `next` is made current with the registers it saved. */
  function Resume(m: Machine, next: nat): Machine
    requires next < |m.states| == |m.saved|
  {
    m.(states := m.states[next := Running], current := next, cpu := m.saved[next])
  }

  /** The interrupt flag of the processor's flags word. */
  const IF: word := 0x200

  predicate InterruptsOn(flags: word) {
    flags / IF % 2 == 1
  }

  /** sti and cli on a flags word. */
  function Sti(flags: word): word {
    if InterruptsOn(flags) then flags else
      SpareBit(flags);
      flags + IF
  }

  function Cli(flags: word): word {
    if InterruptsOn(flags) then flags - IF else flags
  }

  lemma SpareBit(flags: word)
    requires !InterruptsOn(flags)
    ensures flags + IF < 0x1_0000_0000
  {
    assert flags == IF * (flags / IF) + flags % IF;
  }

  /** After sti bit 9 is set and after cli it is clear, whatever it was; no other bit changes, and a
      cli before an sti makes no difference. */
  lemma StiAfterCli(flags: word)
    ensures Sti(Cli(flags)) == Sti(flags) && InterruptsOn(Sti(flags)) && !InterruptsOn(Cli(flags))
    ensures Sti(flags) / 0x200 % 2 == 1 && Cli(flags) / 0x200 % 2 == 0
    ensures Sti(flags) % 0x200 == flags % 0x200 == Cli(flags) % 0x200
    ensures Sti(flags) / 0x400 == flags / 0x400 == Cli(flags) / 0x400
  {
    var q, r := flags / IF, flags % IF;
    assert flags == IF * q + r;
    assert (flags - IF) / IF == q - 1 && (flags - IF) % IF == r;
    assert (flags + IF) / IF == q + 1 && (flags + IF) % IF == r;
    HalfOf(flags);
    HalfOf(Sti(flags));
    HalfOf(Cli(flags));
  }

  lemma HalfOf(flags: word)
    ensures flags / 0x400 == flags / 0x200 / 2
  {}

  function Enabled(f: Frame): Frame {
    f.(eflags := Sti(f.eflags))
  }

  /** sched_yield turns interrupts on before it switches, or instead of switching. */
  function Yield(m: Machine, ret: word): Machine
    requires m.current < |m.states| == |m.saved| && m.cpu.esp >= 8
  {
    Tick(m.(cpu := Enabled(m.cpu)), ret)
  }

  /** sched_tick: `ret` is where the caller continues when it is resumed. */
  function Tick(m: Machine, ret: word): Machine
    requires m.current < |m.states| == |m.saved| && m.cpu.esp >= 8
  {
    NextBounds(m.states, m.current, 1);
    var next := NextFrom(m.states, m.current, 1);
    if next < 0 || next == m.current then m
    else
      var mine := m.cpu.(eip := ret, esp := m.cpu.esp - 8);
      Resume(m.(states := m.states[m.current := Ready], saved := m.saved[m.current := mine]), next)
  }

  /** sched_exit. */
  function Exit(m: Machine): Machine
    requires m.current < |m.states| == |m.saved|
  {
    var states := m.states[m.current := Dead];
    NextBounds(states, m.current, 1);
    var next := NextFrom(states, m.current, 1);
    if next < 0 then m.(states := states, halted := true, cpu := Enabled(m.cpu)) else Resume(m.(states := states), next)
  }

  /** A successful sched_spawn whose first frame is `first`. */
  function Spawn(m: Machine, first: Frame): Machine {
    m.(states := m.states + [Ready], saved := m.saved + [first])
  }

  // ----- next_ready -----

  /** Places from `a` forward to `b` on a ring of `n`. */
  function Ahead(a: nat, b: nat, n: nat): nat
    requires a < n && b < n
  {
    if b > a then b - a else b + n - a
  }

  lemma RingStep(a: nat, i: nat, n: nat)
    requires a < n && 1 <= i <= n
    ensures 0 <= (a + i) % n < n
    ensures (a + i) % n == if a + i < n then a + i else a + i - n
    ensures Ahead(a, (a + i) % n, n) == i
  {
    if a + i < n {
      ModSmall(a + i, n);
    } else {
      ModSmall(a + i - n, n);
      ModShift(a + i - n, n);
    }
  }

  lemma ModSmall(x: nat, n: nat)
    requires x < n
    ensures x % n == x
  {}

  lemma ModShift(x: nat, n: nat)
    requires x < n
    ensures (x + n) % n == x
  {
  }

  lemma {:induction false} NextBounds(states: seq<ThreadState>, current: nat, i: nat)
    requires current < |states|
    ensures -1 <= NextFrom(states, current, i) < |states|
    ensures NextFrom(states, current, i) >= 0 ==> states[NextFrom(states, current, i)] in {Ready, Running}
    decreases |states| + 1 - i
  {
    if i <= |states| {
      NextBounds(states, current, i + 1);
    }
  }

  /** The scan stops at the nearest runnable thread ahead. */
  lemma {:induction false} NextIsNearest(states: seq<ThreadState>, current: nat, i: nat, t: nat)
    requires current < |states| && 1 <= i <= |states|
    requires t < |states| && states[t] in {Ready, Running} && i <= Ahead(current, t, |states|)
    ensures var r := NextFrom(states, current, i); 0 <= r < |states| && Ahead(current, r, |states|) <= Ahead(current, t, |states|)
    decreases |states| + 1 - i
  {
    RingStep(current, i, |states|);
    var idx := (current + i) % |states|;
    if !(states[idx] == Ready || states[idx] == Running) {
      assert i != Ahead(current, t, |states|);
      NextIsNearest(states, current, i + 1, t);
    }
  }

  // ----- invariants -----

  lemma TickInv(m: Machine, ret: word)
    requires SchedInv(m) && !m.halted && m.cpu.esp >= 8
    ensures SchedInv(Tick(m, ret)) && !Tick(m, ret).halted
  {
    NextBounds(m.states, m.current, 1);
  }

  /** A tick that switches, spelled out. */
  lemma TickIs(m: Machine, ret: word, next: nat)
    requires SchedInv(m) && !m.halted && m.cpu.esp >= 8
    requires next == NextFrom(m.states, m.current, 1) && next != m.current
    ensures next < |m.states| && m.states[next] == Ready
    ensures Tick(m, ret) == Machine(m.states[m.current := Ready][next := Running], next,
      m.saved[m.current := m.cpu.(eip := ret, esp := m.cpu.esp - 8)], m.saved[next], false)
  {
    NextBounds(m.states, m.current, 1);
  }

  lemma ExitInv(m: Machine)
    requires SchedInv(m) && !m.halted
    ensures SchedInv(Exit(m))
  {
    ExitKeeps(m);
  }

  /** An exit, spelled out; what the flags are in between does not matter. */
  lemma ExitIs(m: Machine, flags: word)
    requires SchedInv(m) && !m.halted
    ensures SchedInv(Exit(m))
    ensures var buried := m.(states := m.states[m.current := Dead], cpu := m.cpu.(eflags := flags));
      var next := NextFrom(buried.states, m.current, 1);
      && next < |m.states|
      && if next < 0 then Exit(m) == buried.(halted := true, cpu := m.cpu.(eflags := Sti(m.cpu.eflags)))
         else buried.states[next] == Ready && Exit(m) == Resume(buried, next)
  {
    NextBounds(m.states[m.current := Dead], m.current, 1);
    ExitInv(m);
  }

  /** The same threads are dead in both states. */
  ghost predicate SameDead(a: seq<ThreadState>, b: seq<ThreadState>) {
    |a| == |b| && forall i :: 0 <= i < |a| ==> (a[i] == Dead <==> b[i] == Dead)
  }

  /** Another thread is waiting for the CPU. */
  ghost predicate SomeoneWaits(m: Machine) {
    exists i :: 0 <= i < |m.states| && m.states[i] == Ready
  }

  /** A tick costs nobody its life. It hands the CPU on exactly if another thread waits for it, to
      the nearest one ahead, and otherwise does nothing. */
  lemma TickKeeps(m: Machine, ret: word)
    requires SchedInv(m) && !m.halted && m.cpu.esp >= 8
    ensures var r := Tick(m, ret);
      && SchedInv(r) && !r.halted && SameDead(m.states, r.states)
      && (if SomeoneWaits(m) then r.current != m.current && m.states[r.current] == Ready && r.states[m.current] == Ready else r == m)
      && forall t :: 0 <= t < |m.states| && m.states[t] == Ready ==> Ahead(m.current, r.current, |m.states|) <= Ahead(m.current, t, |m.states|)
  {
    NextBounds(m.states, m.current, 1);
    forall t | 0 <= t < |m.states| && m.states[t] == Ready
      ensures var r := Tick(m, ret); r.current != m.current && Ahead(m.current, r.current, |m.states|) <= Ahead(m.current, t, |m.states|)
    {
      NextIsNearest(m.states, m.current, 1, t);
    }
  }

  /** So does a yield, which also turns interrupts on. */
  lemma YieldKeeps(m: Machine, ret: word)
    requires SchedInv(m) && !m.halted && m.cpu.esp >= 8
    ensures var r := Yield(m, ret);
      && SchedInv(r) && !r.halted && SameDead(m.states, r.states)
      && (if SomeoneWaits(m) then r.current != m.current && m.states[r.current] == Ready && r.states[m.current] == Ready
          else r == m.(cpu := m.cpu.(eflags := Sti(m.cpu.eflags))))
      && forall t :: 0 <= t < |m.states| && m.states[t] == Ready ==> Ahead(m.current, r.current, |m.states|) <= Ahead(m.current, t, |m.states|)
  {
    TickKeeps(m.(cpu := Enabled(m.cpu)), ret);
  }

  /** An exit ends the current thread and no other; the machine halts, with interrupts on, exactly if
      no thread waits. */
  lemma ExitKeeps(m: Machine)
    requires SchedInv(m) && !m.halted
    ensures var r := Exit(m);
      && SchedInv(r) && SameDead(m.states[m.current := Dead], r.states)
      && (r.halted <==> !SomeoneWaits(m))
      && (r.halted ==> InterruptsOn(r.cpu.eflags))
  {
    var states := m.states[m.current := Dead];
    NextBounds(states, m.current, 1);
    forall t | 0 <= t < |states| && states[t] == Ready
      ensures NextFrom(states, m.current, 1) >= 0
    {
      NextIsNearest(states, m.current, 1, t);
    }
    assert InterruptsOn(Sti(m.cpu.eflags)) by { StiAfterCli(m.cpu.eflags); }
    if SomeoneWaits(m) {
      var t :| 0 <= t < |m.states| && m.states[t] == Ready;
      assert states[t] == Ready;
    }
  }

  lemma SpawnKeeps(m: Machine, first: Frame)
    requires SchedInv(m) && !m.halted && |m.states| < SCHED_MAX_THREADS
    ensures SchedInv(Spawn(m, first)) && !Spawn(m, first).halted
  {}

  // ----- runs -----

  /** A step of the kernel: the current thread computes, yields, is preempted, exits or spawns. */
  datatype Op = Work(cpu: Frame) | YieldOp(ret: word) | TickOp(ret: word) | ExitOp | SpawnOp(first: Frame)

  ghost predicate Switches(op: Op) {
    op.YieldOp? || op.TickOp? || op.ExitOp?
  }

  /** Spawning fails on a full table; a yield needs room for the call's two arguments. */
  ghost function Step(m: Machine, op: Op): (r: Machine)
    requires SchedInv(m)
    ensures SchedInv(r) && |r.states| >= |m.states|
  {
    if m.halted then m else
      match op
      case Work(cpu) => m.(cpu := cpu)
      case YieldOp(ret) => if m.cpu.esp < 8 then m else TickInv(m.(cpu := Enabled(m.cpu)), ret); Yield(m, ret)
      case TickOp(ret) => if m.cpu.esp < 8 then m else TickInv(m, ret); Tick(m, ret)
      case ExitOp => ExitInv(m); Exit(m)
      case SpawnOp(first) => if |m.states| >= SCHED_MAX_THREADS then m else Spawn(m, first)
  }

  ghost function Run(m: Machine, ops: seq<Op>): (r: Machine)
    requires SchedInv(m)
    ensures SchedInv(r) && |r.states| >= |m.states|
    decreases |ops|
  {
    if ops == [] then m else Run(Step(m, ops[0]), ops[1..])
  }

  /** Every yield along the run finds room on the stack. */
  ghost predicate Roomy(m: Machine, ops: seq<Op>)
    requires SchedInv(m)
    decreases |ops|
  {
    ops == [] || ((Switches(ops[0]) ==> m.cpu.esp >= 8) && Roomy(Step(m, ops[0]), ops[1..]))
  }

  /** A dead thread stays dead, and does not run while anything does. */
  lemma {:induction false} DeadStaysDead(m: Machine, ops: seq<Op>, t: nat)
    requires SchedInv(m) && t < |m.states| && m.states[t] == Dead
    ensures Run(m, ops).states[t] == Dead
    ensures !Run(m, ops).halted ==> Run(m, ops).current != t
    decreases |ops|
  {
    if ops != [] {
      if !m.halted {
        NextBounds(m.states, m.current, 1);
        NextBounds(m.states[m.current := Dead], m.current, 1);
      }
      DeadStaysDead(Step(m, ops[0]), ops[1..], t);
    }
  }

  /** Each switch makes a ready thread current or brings the current one nearer to it, on a ring
      of 16 that spawning does not stretch. */
  lemma SwitchApproaches(m: Machine, op: Op, t: nat)
    requires SchedInv(m) && !m.halted && t < |m.states| && m.states[t] == Ready
    requires Switches(op) && m.cpu.esp >= 8
    ensures var r := Step(m, op);
      && !r.halted
      && (r.current == t ||
          (r.states[t] == Ready && Ahead(r.current, t, SCHED_MAX_THREADS) < Ahead(m.current, t, SCHED_MAX_THREADS)))
  {
    var states := if op.ExitOp? then m.states[m.current := Dead] else m.states;
    NextIsNearest(states, m.current, 1, t);
  }

  lemma OthersKeepPlace(m: Machine, op: Op, t: nat)
    requires SchedInv(m) && !m.halted && t < |m.states| && m.states[t] == Ready && !Switches(op)
    ensures var r := Step(m, op);
      !r.halted && r.current == m.current && r.states[t] == Ready && r.saved[t] == m.saved[t]
  {}

  ghost function CountSwitches(ops: seq<Op>): nat
    decreases |ops|
  {
    if ops == [] then 0 else (if Switches(ops[0]) then 1 else 0) + CountSwitches(ops[1..])
  }

  /** A ready thread becomes current within at most 15 yields, ticks and exits, whatever is spawned
      or computed in between. */
  lemma {:induction false} ReadyRunsWithin(m: Machine, ops: seq<Op>, t: nat) returns (k: nat)
    requires SchedInv(m) && !m.halted && t < |m.states| && m.states[t] == Ready && Roomy(m, ops)
    requires CountSwitches(ops) >= Ahead(m.current, t, SCHED_MAX_THREADS)
    ensures 0 < k <= |ops| && Run(m, ops[..k]).current == t && !Run(m, ops[..k]).halted
    ensures forall j :: 0 <= j < k ==> Run(m, ops[..j]).current != t
    ensures CountSwitches(ops[..k]) <= Ahead(m.current, t, SCHED_MAX_THREADS) <= 15
    decreases |ops|
  {
    var r := Step(m, ops[0]);
    assert ops[..1][0] == ops[0] && ops[..1][1..] == [];
    if Switches(ops[0]) {
      SwitchApproaches(m, ops[0], t);
    } else {
      OthersKeepPlace(m, ops[0], t);
    }
    if r.current == t {
      k := 1;
      assert Run(r, []) == r && ops[..0] == [];
    } else {
      var j := ReadyRunsWithin(r, ops[1..], t);
      k := j + 1;
      assert ops[..k][0] == ops[0] && ops[..k][1..] == ops[1..][..j];
      forall i | 0 <= i < k
        ensures Run(m, ops[..i]).current != t
      {
        if i > 0 {
          assert ops[..i][0] == ops[0] && ops[..i][1..] == ops[1..][..i - 1];
        }
      }
    }
  }

  /** A suspended thread that is resumed gets back exactly the frame it saved, and a fresh one its first frame. */
  lemma {:induction false} ResumeRestores(m: Machine, ops: seq<Op>, t: nat)
    requires SchedInv(m) && !m.halted && t < |m.states| && m.states[t] == Ready
    requires ops != [] && Run(m, ops).current == t && !Run(m, ops).halted
    requires forall k :: 0 <= k < |ops| ==> Run(m, ops[..k]).current != t
    ensures Run(m, ops).cpu == m.saved[t] && Run(m, ops).states[t] == Running
    decreases |ops|
  {
    var r := Step(m, ops[0]);
    StepKeepsSaved(m, ops[0], t);
    if |ops| > 1 {
      forall k | 0 <= k < |ops[1..]|
        ensures Run(r, ops[1..][..k]).current != t
      {
        assert ops[..k + 1][0] == ops[0] && ops[..k + 1][1..] == ops[1..][..k];
        assert Run(m, ops[..k + 1]).current != t;
      }
      assert Run(r, ops[1..][..0]).current != t;
      assert ops[1..][..0] == [];
      ResumeRestores(r, ops[1..], t);
    } else {
      assert ops[1..] == [];
    }
  }

  lemma {:induction false} HaltedStays(m: Machine, ops: seq<Op>)
    requires SchedInv(m) && m.halted
    ensures Run(m, ops) == m
    decreases |ops|
  {
    if ops != [] {
      HaltedStays(m, ops[1..]);
    }
  }

  lemma StepKeepsSaved(m: Machine, op: Op, t: nat)
    requires SchedInv(m) && !m.halted && t < |m.states| && m.states[t] == Ready
    ensures var r := Step(m, op);
      !r.halted &&
      if r.current == t then r.cpu == m.saved[t] && r.states[t] == Running
      else r.states[t] == Ready && r.saved[t] == m.saved[t]
  {
    NextBounds(m.states, m.current, 1);
    NextBounds(m.states[m.current := Dead], m.current, 1);
    if op.ExitOp? {
      NextIsNearest(m.states[m.current := Dead], m.current, 1, t);
    }
  }

  /** What a preempted thread gets back: its registers, its flags, its return address and the
      stack pointer behind it, with the call's two arguments still to be dropped. */
  lemma TickThenResume(m: Machine, ret: word, ops: seq<Op>)
    requires SchedInv(m) && !m.halted && m.cpu.esp >= 8
    requires Tick(m, ret).current != m.current
    requires SchedInv(Tick(m, ret)) && ops != []
    requires forall k :: 0 <= k < |ops| ==> Run(Tick(m, ret), ops[..k]).current != m.current
    requires Run(Tick(m, ret), ops).current == m.current && !Run(Tick(m, ret), ops).halted
    ensures Run(Tick(m, ret), ops).cpu == m.cpu.(eip := ret, esp := m.cpu.esp - 8)
  {
    NextBounds(m.states, m.current, 1);
    TickKeeps(m, ret);
    ResumeRestores(Tick(m, ret), ops, m.current);
  }

  /** A thread that yields gets the same back, with interrupts on. */
  lemma YieldThenResume(m: Machine, ret: word, ops: seq<Op>)
    requires SchedInv(m) && !m.halted && m.cpu.esp >= 8
    requires Yield(m, ret).current != m.current
    requires SchedInv(Yield(m, ret)) && ops != []
    requires forall k :: 0 <= k < |ops| ==> Run(Yield(m, ret), ops[..k]).current != m.current
    requires Run(Yield(m, ret), ops).current == m.current && !Run(Yield(m, ret), ops).halted
    ensures Run(Yield(m, ret), ops).cpu == Enabled(m.cpu).(eip := ret, esp := m.cpu.esp - 8)
  {
    TickThenResume(m.(cpu := Enabled(m.cpu)), ret, ops);
  }

  // ----- it does get the CPU back -----

  /** A waiting thread is given the CPU within 15 switches, and then with exactly the frame it saved. */
  lemma WaitsAndRuns(m: Machine, ops: seq<Op>, t: nat) returns (k: nat)
    requires SchedInv(m) && !m.halted && t < |m.states| && m.states[t] == Ready && Roomy(m, ops)
    requires CountSwitches(ops) >= 15
    ensures 0 < k <= |ops| && CountSwitches(ops[..k]) <= 15
    ensures var r := Run(m, ops[..k]); r.current == t && r.cpu == m.saved[t] && r.states[t] == Running && !r.halted
    ensures forall j :: 0 <= j < k ==> Run(m, ops[..j]).current != t
  {
    k := ReadyRunsWithin(m, ops, t);
    forall j | 0 <= j < k
      ensures Run(m, ops[..k][..j]).current != t
    {
      assert ops[..k][..j] == ops[..j];
    }
    ResumeRestores(m, ops[..k], t);
  }

  /** A spawned thread starts within 15 switches, from exactly its first frame. */
  lemma FreshStarts(m: Machine, first: Frame, ops: seq<Op>) returns (k: nat)
    requires SchedInv(m) && !m.halted && |m.states| < 16
    requires Roomy(Step(m, SpawnOp(first)), ops) && CountSwitches(ops) >= 15
    ensures 0 < k <= |ops| && CountSwitches(ops[..k]) <= 15
    ensures var r := Run(Step(m, SpawnOp(first)), ops[..k]); r.current == |m.states| && r.cpu == first && !r.halted
    ensures forall j :: 0 <= j < k ==> Run(Step(m, SpawnOp(first)), ops[..j]).current != |m.states|
  {
    k := WaitsAndRuns(Step(m, SpawnOp(first)), ops, |m.states|);
  }

  /** In particular one whose first frame is what sched_spawn builds: it starts at the trampoline, on
      its own empty stack, with interrupts on. */
  lemma StartsAtTrampoline(m: Machine, trampoline: word, base: nat, ops: seq<Op>) returns (k: nat)
    requires SchedInv(m) && !m.halted && |m.states| < 16
    requires var s := Step(m, SpawnOp(Frame(0, 0, 0, 0, 0x202, trampoline, base + 8192))); Roomy(s, ops)
    requires CountSwitches(ops) >= 15
    ensures 0 < k <= |ops| && CountSwitches(ops[..k]) <= 15
    ensures var s := Step(m, SpawnOp(Frame(0, 0, 0, 0, 0x202, trampoline, base + 8192)));
      && (forall j :: 0 <= j < k ==> Run(s, ops[..j]).current != |m.states|)
      && var r := Run(s, ops[..k]);
         r.current == |m.states| && r.cpu.eip == trampoline && r.cpu.esp == base + 8192 && InterruptsOn(r.cpu.eflags)
  {
    k := FreshStarts(m, Frame(0, 0, 0, 0, 0x202, trampoline, base + 8192), ops);
    assert 0x202 / IF == 1;
  }

  /** A thread that yields to a waiting one goes on behind its call within 15 switches, with its
      registers, and with interrupts on. */
  lemma YieldComesBack(m: Machine, ret: word, ops: seq<Op>) returns (k: nat)
    requires SchedInv(m) && !m.halted && m.cpu.esp >= 8 && SomeoneWaits(m)
    requires Roomy(Step(m, YieldOp(ret)), ops) && CountSwitches(ops) >= 15
    ensures 0 < k <= |ops| && CountSwitches(ops[..k]) <= 15
    ensures var r := Run(Step(m, YieldOp(ret)), ops[..k]);
      && r.current == m.current && !r.halted
      && r.cpu == m.cpu.(eip := ret, esp := m.cpu.esp - 8, eflags := Sti(m.cpu.eflags))
    ensures forall j :: 0 <= j < k ==> Run(Step(m, YieldOp(ret)), ops[..j]).current != m.current
  {
    YieldKeeps(m, ret);
    k := WaitsAndRuns(Yield(m, ret), ops, m.current);
  }

  /** So does one that is preempted, with the flags it had. */
  lemma TickComesBack(m: Machine, ret: word, ops: seq<Op>) returns (k: nat)
    requires SchedInv(m) && !m.halted && m.cpu.esp >= 8 && SomeoneWaits(m)
    requires Roomy(Step(m, TickOp(ret)), ops) && CountSwitches(ops) >= 15
    ensures 0 < k <= |ops| && CountSwitches(ops[..k]) <= 15
    ensures var r := Run(Step(m, TickOp(ret)), ops[..k]);
      r.current == m.current && !r.halted && r.cpu == m.cpu.(eip := ret, esp := m.cpu.esp - 8)
    ensures forall j :: 0 <= j < k ==> Run(Step(m, TickOp(ret)), ops[..j]).current != m.current
  {
    TickKeeps(m, ret);
    k := WaitsAndRuns(Tick(m, ret), ops, m.current);
  }
}
