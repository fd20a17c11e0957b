/** The scheduler's own steps: real pushes and pops on real stacks. */
module Sched {
  import opened Bytes
  import opened HeapBlocks
  import opened Heap
  import opened SchedSpec
  import opened SchedStacks

  class Scheduler {
    const heap: Memory
    const layout: Layout
    /** The address of thread_trampoline. */
    const trampoline: word
    const state: array<ThreadState>
    const stackBase: array<nat>
    const entry: array<word>
    var current: nat
    var count: nat
    var halted: bool
    var cpu: Frame
    /** What each thread had when it last gave up the CPU. */
    ghost var saved: seq<Frame>

    ghost predicate Wired()
      reads {}
    {
      && layout.Ok()
      && state.Length == stackBase.Length == entry.Length == SCHED_MAX_THREADS
      && stackBase as object != entry && heap.mem as object != stackBase && heap.mem as object != entry
      && heap.mem as object != state && stackBase as object != state && entry as object != state
    }

    ghost function States(): seq<ThreadState>
      requires Wired() && count <= SCHED_MAX_THREADS
      reads this, state
    {
      state[..count]
    }

    ghost function M(): Machine
      requires Wired() && count <= SCHED_MAX_THREADS
      reads this, state
    {
      Machine(States(), current, saved, cpu, halted)
    }

    ghost predicate Valid()
      reads this, state, stackBase, heap, heap.mem
    {
      && Wired() && heap.Valid()
      && count <= SCHED_MAX_THREADS
      && SchedInv(M())
      && Owned(heap.blocks, stackBase[..], States())
      && FramesKept(layout, heap.mem[..], stackBase[..], States(), saved)
      && cpu.esp % 4 == 0
    }

    /** sched_init: the boot code becomes thread 0. */
    constructor (heap: Memory, layout: Layout, trampoline: word, cpu: Frame)
      requires heap.Valid() && layout.Ok() && cpu.esp % 4 == 0
      ensures Valid() && this.heap == heap && this.layout == layout && this.trampoline == trampoline
      ensures M() == Machine([Running], 0, [cpu], cpu, false)
    {
      this.heap := heap;
      this.layout := layout;
      this.trampoline := trampoline;
      state := new ThreadState[SCHED_MAX_THREADS](_ => Dead);
      stackBase := new nat[SCHED_MAX_THREADS](_ => 0);
      entry := new word[SCHED_MAX_THREADS](_ => 0);
      current := 0;
      count := 1;
      halted := false;
      this.cpu := cpu;
      saved := [cpu];
      new;
      state[0] := Running;
      assert States() == [Running];
    }

    // ----- the assembly -----

    method Push(w: word)
      requires 4 <= cpu.esp <= heap.mem.Length
      modifies heap.mem, this`cpu
      ensures cpu == old(cpu).(esp := old(cpu.esp) - 4)
      ensures heap.mem[..] == old(heap.mem[..])[old(cpu.esp) - 4 := w]
    {
      cpu := cpu.(esp := cpu.esp - 4);
      heap.mem[cpu.esp] := w;
    }

    /** Pops ebp, edi, esi, ebx and the flags and returns: loads the frame at the stack pointer. */
    method PopFrame()
      requires cpu.esp + 24 <= heap.mem.Length
      modifies this`cpu
      ensures cpu == ReadFrame(heap.mem[..], old(cpu.esp))
    {
      cpu := cpu.(ebp := heap.mem[cpu.esp], esp := cpu.esp + 4);
      cpu := cpu.(edi := heap.mem[cpu.esp], esp := cpu.esp + 4);
      cpu := cpu.(esi := heap.mem[cpu.esp], esp := cpu.esp + 4);
      cpu := cpu.(ebx := heap.mem[cpu.esp], esp := cpu.esp + 4);
      cpu := cpu.(eflags := heap.mem[cpu.esp], esp := cpu.esp + 4);
      cpu := cpu.(eip := heap.mem[cpu.esp], esp := cpu.esp + 4);
    }

    /** The call of sched_switch and its body: pushes both arguments, the return address, the flags
        and four registers, stores the stack pointer through the first argument, loads the second. */
    method SchedSwitch(oldCell: nat, newEsp: word, ret: word)
      requires 32 <= cpu.esp <= heap.mem.Length < 0x1_0000_0000
      requires oldCell < heap.mem.Length && !(cpu.esp - 32 <= oldCell < cpu.esp)
      requires newEsp + 24 <= heap.mem.Length
      modifies heap.mem, this`cpu
      ensures heap.mem[oldCell] == old(cpu.esp) - 32
      ensures ReadFrame(heap.mem[..], old(cpu.esp) - 32) == old(cpu).(eip := ret, esp := old(cpu.esp) - 8)
      ensures forall a: nat :: a < heap.mem.Length && a != oldCell && !(old(cpu.esp) - 32 <= a < old(cpu.esp)) ==>
        heap.mem[a] == old(heap.mem[a])
      ensures cpu == ReadFrame(heap.mem[..], newEsp)
    {
      ghost var top := cpu.esp;
      PushCall(newEsp, oldCell, ret);
      PushContext();
      assert heap.mem[top - 8] == oldCell && heap.mem[top - 4] == newEsp;
      var eax := heap.mem[cpu.esp + 24];
      heap.mem[eax] := cpu.esp;
      cpu := cpu.(esp := heap.mem[cpu.esp + 28]);
      PopFrame();
    }

    /** What the C caller pushes: both arguments, last first, and the return address. */
    method PushCall(arg1: word, arg0: word, ret: word)
      requires 12 <= cpu.esp <= heap.mem.Length
      modifies heap.mem, this`cpu
      ensures cpu == old(cpu).(esp := old(cpu.esp) - 12)
      ensures heap.mem[cpu.esp] == ret && heap.mem[cpu.esp + 4] == arg0 && heap.mem[cpu.esp + 8] == arg1
      ensures forall a: nat :: a < heap.mem.Length && !(cpu.esp <= a < cpu.esp + 12) ==> heap.mem[a] == old(heap.mem[a])
    {
      Push(arg1);
      Push(arg0);
      Push(ret);
    }

    /** pushf and the four register pushes of sched_switch. */
    method PushContext()
      requires 20 <= cpu.esp <= heap.mem.Length
      modifies heap.mem, this`cpu
      ensures cpu == old(cpu).(esp := old(cpu.esp) - 20)
      ensures heap.mem[cpu.esp] == cpu.ebp && heap.mem[cpu.esp + 4] == cpu.edi && heap.mem[cpu.esp + 8] == cpu.esi
      ensures heap.mem[cpu.esp + 12] == cpu.ebx && heap.mem[cpu.esp + 16] == cpu.eflags
      ensures forall a: nat :: a < heap.mem.Length && !(cpu.esp <= a < cpu.esp + 20) ==> heap.mem[a] == old(heap.mem[a])
    {
      Push(cpu.eflags);
      Push(cpu.ebx);
      Push(cpu.esi);
      Push(cpu.edi);
      Push(cpu.ebp);
    }

    /** The call of sched_jump and its body: the current stack is abandoned. */
    method SchedJump(newEsp: word, ret: word)
      requires 8 <= cpu.esp <= heap.mem.Length
      requires newEsp + 24 <= heap.mem.Length
      modifies heap.mem, this`cpu
      ensures forall a: nat :: a < heap.mem.Length && !(old(cpu.esp) - 8 <= a < old(cpu.esp)) ==>
        heap.mem[a] == old(heap.mem[a])
      ensures cpu == ReadFrame(heap.mem[..], newEsp)
    {
      Push(newEsp);
      Push(ret);
      cpu := cpu.(esp := heap.mem[cpu.esp + 4]);
      PopFrame();
    }

    // ----- the C steps -----

    method NextReady() returns (next: int)
      requires Wired() && current < count <= SCHED_MAX_THREADS
      ensures next == NextFrom(States(), current, 1)
    {
      var i := 1;
      while i <= count
        invariant 1 <= i <= count + 1
        invariant NextFrom(States(), current, 1) == NextFrom(States(), current, i)
      {
        var idx := (current + i) % count;
        if state[idx] == Ready || state[idx] == Running {
          return idx;
        }
        i := i + 1;
      }
      next := -1;
    }

    /** sched_yield: hands the CPU to the next ready thread, to continue at `ret` when resumed. */
    method SchedYield(ret: word)
      requires Valid() && !halted
      requires layout.Lo(stackBase[..], current) + 32 <= cpu.esp <= layout.Hi(stackBase[..], current)
      modifies this, state, heap.mem
      ensures Valid() && M() == Yield(old(M()), ret)
      ensures heap.blocks == old(heap.blocks)
    {
      ghost var was := M();
      StiAfterCli(cpu.eflags);
      cpu := cpu.(eflags := Cli(cpu.eflags));
      NextBounds(States(), current, 1);
      var next := NextReady();
      if next < 0 || next == current {
        cpu := cpu.(eflags := Sti(cpu.eflags));
        return;
      }
      cpu := cpu.(eflags := Sti(cpu.eflags));
      assert M() == was.(cpu := Enabled(was.cpu));
      SwitchTo(next, ret);
    }

    /** The common end of sched_yield and sched_tick. */
    method SwitchTo(next: nat, ret: word)
      requires Valid() && !halted && next == NextFrom(States(), current, 1) && next != current
      requires layout.Lo(stackBase[..], current) + 32 <= cpu.esp <= layout.Hi(stackBase[..], current)
      modifies this, state, heap.mem
      ensures Valid() && M() == Tick(old(M()), ret)
      ensures heap.blocks == old(heap.blocks)
    {
      ghost var states, was, mine := States(), M(), cpu.(eip := ret, esp := cpu.esp - 8);
      TickInv(was, ret);
      TickIs(was, ret, next);
      var prev := current;
      state[prev] := Ready;
      current := next;
      state[next] := Running;
      assert States() == states[prev := Ready][next := Running];
      SwitchStacks(prev, next, ret, states);
      saved := saved[prev := mine];
      assert M() == Tick(was, ret);
    }

    /** The memory side of a switch: the frame of `prev` is kept on its stack, that of `next` is loaded. */
    method SwitchStacks(prev: nat, next: nat, ret: word, ghost states: seq<ThreadState>)
      requires Wired() && heap.Valid() && prev < |states| <= SCHED_MAX_THREADS && next < |states|
      requires Owned(heap.blocks, stackBase[..], states) && FramesKept(layout, heap.mem[..], stackBase[..], states, saved)
      requires states[prev] == Running && states[next] == Ready && cpu.esp % 4 == 0
      requires layout.Lo(stackBase[..], prev) + 32 <= cpu.esp <= layout.Hi(stackBase[..], prev)
      modifies heap.mem, this`cpu
      ensures heap.Valid() && cpu == saved[next] && cpu.esp % 4 == 0
      ensures var after, mine := states[prev := Ready][next := Running], old(cpu).(eip := ret, esp := old(cpu.esp) - 8);
        Owned(heap.blocks, stackBase[..], after) && FramesKept(layout, heap.mem[..], stackBase[..], after, saved[prev := mine])
    {
      ghost var l, bs, bases, m := layout, heap.blocks, stackBase[..], heap.mem[..];
      ghost var mine := cpu.(eip := ret, esp := cpu.esp - 8);
      CellClear(l, bs, bases, states, prev, prev);
      StackInside(l, bs, bases, states, prev, m);
      assert Suspended(m, l.EspCell(next), l.Lo(bases, next), l.Hi(bases, next), saved[next]);
      SchedSwitch(layout.EspCell(prev), heap.mem[layout.EspCell(next)], ret);
      assert Suspended(heap.mem[..], l.EspCell(prev), l.Lo(bases, prev), l.Hi(bases, prev), mine);
      SwitchKeeps(l, bs, bases, states, saved, prev, next, m, heap.mem[..], mine);
      StoredUntouched(m, heap.mem[..], bs);
    }

    /** sched_tick: the same switch, from the timer interrupt. */
    method SchedTick(ret: word)
      requires Valid() && !halted
      requires layout.Lo(stackBase[..], current) + 32 <= cpu.esp <= layout.Hi(stackBase[..], current)
      modifies this, state, heap.mem
      ensures Valid() && M() == Tick(old(M()), ret)
      ensures heap.blocks == old(heap.blocks)
    {
      NextBounds(States(), current, 1);
      var next := NextReady();
      if next < 0 || next == current {
        return;
      }
      SwitchTo(next, ret);
    }

    /** sched_exit: frees the current stack, drops the thread and jumps into the next ready one. */
    method SchedExit(ret: word)
      requires Valid() && !halted
      requires layout.Lo(stackBase[..], current) + 8 <= cpu.esp <= layout.Hi(stackBase[..], current)
      modifies this, state, stackBase, heap, heap.mem
      ensures Valid() && M() == Exit(old(M()))
      ensures var base := old(stackBase[current]);
        && heap.blocks == (if base == 0 then old(heap.blocks) else Free(old(heap.blocks), base))
        && stackBase[..] == old(stackBase[..])[old(current) := 0]
    {
      ghost var lo, hi := layout.Lo(stackBase[..], current), layout.Hi(stackBase[..], current);
      ghost var was := M();
      ghost var flags := Cli(cpu.eflags);
      ExitIs(was, flags);
      assert Sti(flags) == Sti(cpu.eflags) by { StiAfterCli(cpu.eflags); }
      cpu := cpu.(eflags := Cli(cpu.eflags));
      Bury();
      var next := NextReady();
      if next < 0 {
        cpu := cpu.(eflags := Sti(cpu.eflags));
        halted := true;
        assert M() == Exit(was);
        return;
      }
      JumpTo(next, ret, lo, hi);
    }

    /** Frees the current thread's stack and marks it dead; the CPU still stands on the freed stack. */
    method Bury()
      requires Valid() && !halted
      modifies state, stackBase, heap, heap.mem
      ensures Wired() && heap.Valid()
      ensures M() == old(M()).(states := old(States())[current := Dead])
      ensures stackBase[..] == old(stackBase[..])[current := 0]
      ensures var base := old(stackBase[current]);
        heap.blocks == if base == 0 then old(heap.blocks) else Free(old(heap.blocks), base)
      ensures Owned(heap.blocks, stackBase[..], States()) && FramesKept(layout, heap.mem[..], stackBase[..], States(), saved)
      ensures old(layout.Hi(stackBase[..], current)) <= heap.mem.Length
      ensures ClearOf(layout, heap.blocks, stackBase[..], States(), old(layout.Lo(stackBase[..], current)), old(layout.Hi(stackBase[..], current)))
    {
      ghost var l, bs, bases, states, m := layout, heap.blocks, stackBase[..], States(), heap.mem[..];
      StackInside(l, bs, bases, states, current, m);
      if current > 0 {
        ghost var k := StackIndex(bs, bases[current]);
      }
      OwnedAfterDeath(bs, bases, states, current);
      if stackBase[current] != 0 {
        heap.Kfree(stackBase[current]);
        OwnedThroughFree(bs, bases[current], bases[current := 0], states[current := Dead]);
        FramesThroughHeapCall(l, bs, bases, states, saved, m, heap.mem[..]);
        stackBase[current] := 0;
      }
      state[current] := Dead;
      FreedStackClear(l, bs, heap.blocks, bases, states, current);
      FramesAfterDeath(l, heap.mem[..], bases, states, saved, current);
      assert stackBase[..] == bases[current := 0] && States() == states[current := Dead];
    }

    /** Makes `next` current and jumps into it from a dead thread's stack in `[lo, hi)`. */
    method JumpTo(next: nat, ret: word, ghost lo: nat, ghost hi: nat)
      requires Wired() && heap.Valid() && current < count <= SCHED_MAX_THREADS
      requires Owned(heap.blocks, stackBase[..], States()) && FramesKept(layout, heap.mem[..], stackBase[..], States(), saved)
      requires ClearOf(layout, heap.blocks, stackBase[..], States(), lo, hi)
      requires lo + 8 <= cpu.esp <= hi <= heap.mem.Length
      requires next < count && States()[next] == Ready
      modifies this`current, this`cpu, state, heap.mem
      ensures Wired() && heap.Valid() && M() == Resume(old(M()), next) && cpu.esp % 4 == 0
      ensures Owned(heap.blocks, stackBase[..], States()) && FramesKept(layout, heap.mem[..], stackBase[..], States(), saved)
    {
      ghost var l, bs, bases, states, m := layout, heap.blocks, stackBase[..], States(), heap.mem[..];
      assert Suspended(m, l.EspCell(next), l.Lo(bases, next), l.Hi(bases, next), saved[next]);
      current := next;
      state[next] := Running;
      SchedJump(heap.mem[layout.EspCell(next)], ret);
      JumpKeeps(l, bs, bases, states, saved, next, lo, hi, m, heap.mem[..]);
      StoredUntouched(m, heap.mem[..], bs);
      assert States() == states[next := Running];
    }

    /** The frame a new thread starts from: at thread_trampoline, with interrupts on, on its own stack. */
    function FirstFrame(base: nat): Frame {
      Frame(0, 0, 0, 0, 0x202, trampoline, base + SCHED_STACK_SIZE)
    }

    /** sched_spawn: a new stack with a frame that starts `fn` through the trampoline. */
    method SchedSpawn(fn: word) returns (id: int)
      requires Valid() && !halted
      modifies this, state, stackBase, entry, heap, heap.mem
      ensures Valid()
      ensures id < 0 <==> old(count) == 16 || Malloc(old(heap.blocks), 8192).0 == 0
      ensures id < 0 ==> id == -1 && M() == old(M()) && heap.mem[..] == old(heap.mem[..])
      ensures id >= 0 ==> id == old(count) < 16 && entry[..] == old(entry[..])[id := fn]
      ensures id >= 0 ==> (stackBase[id], heap.blocks) == Malloc(old(heap.blocks), 8192) && StackAt(heap.blocks, stackBase[id])
      ensures id >= 0 ==> M() == Spawn(old(M()), Frame(0, 0, 0, 0, 0x202, trampoline, stackBase[id] + 8192))
      ensures id >= 0 ==> layout.table + 20 * id < heap.mem.Length && heap.mem[layout.table + 20 * id] == stackBase[id] + 8168
    {
      if count >= SCHED_MAX_THREADS {
        return -1;
      }
      id := count;
      var base := NewStackFor(id);
      if base == 0 {
        return -1;
      }
      entry[id] := fn;
      AddThread(base, id);
    }

    /** Gives the new thread its first frame and counts it as ready. */
    method AddThread(base: nat, id: nat)
      requires Valid() && !halted && id == count < SCHED_MAX_THREADS
      requires base == stackBase[id] && StackAt(heap.blocks, base) && Owned(heap.blocks, stackBase[..], States() + [Ready])
      modifies this`count, this`saved, state, heap.mem
      ensures Valid() && M() == Spawn(old(M()), FirstFrame(base))
      ensures layout.EspCell(id) < heap.mem.Length && heap.mem[layout.EspCell(id)] == base + SCHED_STACK_SIZE - 24
    {
      ghost var k := StackIndex(heap.blocks, base);
      SpawnKeeps(M(), FirstFrame(base));
      ghost var l, bs, bases, states, m := layout, heap.blocks, stackBase[..], States(), heap.mem[..];
      BuildFrame(base, id);
      SpawnKeepsFrames(l, bs, bases, states, saved, m, heap.mem[..], FirstFrame(base));
      StoredUntouched(m, heap.mem[..], bs);
      state[id] := Ready;
      count := count + 1;
      saved := saved + [FirstFrame(base)];
      assert States() == states + [Ready];
    }

    /** Allocates a stack and records it for thread `id`. */
    method NewStackFor(id: nat) returns (base: nat)
      requires Valid() && !halted && id == count < SCHED_MAX_THREADS
      modifies stackBase, heap, heap.mem
      ensures base == Malloc(old(heap.blocks), SCHED_STACK_SIZE).0
      ensures Valid() && M() == old(M()) && stackBase[..] == old(stackBase[..])[id := base]
      ensures base == 0 ==> heap.mem[..] == old(heap.mem[..])
      ensures heap.blocks == Malloc(old(heap.blocks), SCHED_STACK_SIZE).1
      ensures base != 0 ==> StackAt(heap.blocks, base) && Owned(heap.blocks, stackBase[..], States() + [Ready])
    {
      ghost var l, bs, bases, states, m := layout, heap.blocks, stackBase[..], States(), heap.mem[..];
      base := heap.Kmalloc(SCHED_STACK_SIZE);
      stackBase[id] := base;
      OwnedThroughMalloc(bs, SCHED_STACK_SIZE, bases, states);
      FramesThroughHeapCall(l, bs, bases, states, saved, m, heap.mem[..]);
      OtherBase(l, heap.mem[..], bases, states, saved, id, base);
      assert stackBase[..] == bases[id := base];
      if base != 0 {
        NewStack(bs, bases, states);
        OwnedWithNew(heap.blocks, bases, states, base, Ready);
      }
    }

    /** Pushes the first frame on a fresh stack and saves its stack pointer. */
    method BuildFrame(base: nat, id: nat)
      requires base + SCHED_STACK_SIZE <= heap.mem.Length < 0x1_0000_0000 && layout.EspCell(id) < base && base % 4 == 0
      modifies heap.mem
      ensures Suspended(heap.mem[..], layout.EspCell(id), base, base + SCHED_STACK_SIZE, FirstFrame(base))
      ensures forall a: nat :: a < heap.mem.Length && a != layout.EspCell(id) && !(base <= a < base + SCHED_STACK_SIZE) ==>
        heap.mem[a] == old(heap.mem[a])
    {
      var sp := base + SCHED_STACK_SIZE;
      sp := sp - 4;
      heap.mem[sp] := trampoline;
      sp := sp - 4;
      heap.mem[sp] := 0x202;
      sp := sp - 4;
      heap.mem[sp] := 0;
      sp := sp - 4;
      heap.mem[sp] := 0;
      sp := sp - 4;
      heap.mem[sp] := 0;
      sp := sp - 4;
      heap.mem[sp] := 0;
      heap.mem[layout.EspCell(id)] := sp;
    }

    // ----- what threads do between the steps -----

    /** The running thread computes: its registers change. */
    method Compute(regs: Frame)
      requires Valid() && !halted && regs.esp % 4 == 0
      modifies this`cpu
      ensures Valid() && M() == old(M()).(cpu := regs)
    {
      cpu := regs;
    }

    /** The running thread writes a word of its own: no header, no saved stack pointer, no stack of a
        suspended thread. */
    method Store(a: nat, w: word)
      requires Valid() && !halted && a < heap.mem.Length && a % 4 == 0
      requires OutsideHeaders(a, Headers(heap.blocks))
      requires !(layout.table <= a < layout.TableEnd())
      requires forall i: nat :: i < count && state[i] == Ready ==> !(layout.Lo(stackBase[..], i) <= a < layout.Hi(stackBase[..], i))
      modifies heap.mem
      ensures Valid() && M() == old(M())
    {
      ghost var l, bases, states, m := layout, stackBase[..], States(), heap.mem[..];
      heap.mem[a] := w;
      StoredUntouched(m, heap.mem[..], heap.blocks);
      forall i: nat | i < |states| && states[i] == Ready
        ensures Suspended(heap.mem[..], l.EspCell(i), l.Lo(bases, i), l.Hi(bases, i), saved[i])
      {
        assert Suspended(m, l.EspCell(i), l.Lo(bases, i), l.Hi(bases, i), saved[i]);
        SuspendedStays(m, heap.mem[..], l.EspCell(i), l.Lo(bases, i), l.Hi(bases, i), saved[i]);
      }
    }

    /** The running thread allocates. */
    method Allocate(size: word) returns (p: nat)
      requires Valid() && !halted
      modifies heap, heap.mem
      ensures Valid() && M() == old(M()) && (p, heap.blocks) == Malloc(old(heap.blocks), size)
    {
      ghost var l, bs, bases, states, m := layout, heap.blocks, stackBase[..], States(), heap.mem[..];
      p := heap.Kmalloc(size);
      OwnedThroughMalloc(bs, size, bases, states);
      FramesThroughHeapCall(l, bs, bases, states, saved, m, heap.mem[..]);
    }

    /** The running thread frees a pointer that is nobody's stack. */
    method Deallocate(p: nat)
      requires Valid() && !halted && p in LivePtrs(heap.blocks)
      requires forall i :: 1 <= i < count && state[i] != Dead ==> stackBase[i] != p
      modifies heap, heap.mem
      ensures Valid() && M() == old(M()) && heap.blocks == Free(old(heap.blocks), p)
    {
      ghost var l, bs, bases, states, m := layout, heap.blocks, stackBase[..], States(), heap.mem[..];
      heap.Kfree(p);
      OwnedThroughFree(bs, p, bases, states);
      FramesThroughHeapCall(l, bs, bases, states, saved, m, heap.mem[..]);
    }
  }
}
