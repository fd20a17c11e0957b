/** Thread stacks as disjoint blocks of the kernel heap, and the frames suspended threads keep there. */
module SchedStacks {
  import opened Bytes
  import opened HeapBlocks
  import opened Heap
  import opened SchedSpec

  const SCHED_STACK_SIZE := 8192
  /** Size of a thread_t; its first word is the saved stack pointer. */
  const THREAD_SIZE := 20

  /** Where things are: the threads table and the boot stack of thread 0, both below the heap, in
      whatever order the linker chose. */
  datatype Layout = Layout(table: nat, bootLow: nat, bootTop: nat) {
    ghost predicate Ok() {
      && table % 4 == 0 && TableEnd() <= HEAP_START
      && bootLow <= bootTop <= HEAP_START
      && ApartFromTable(bootLow, bootTop)
    }

    function TableEnd(): nat {
      table + THREAD_SIZE * SCHED_MAX_THREADS
    }

    ghost predicate ApartFromTable(lo: nat, hi: nat) {
      TableEnd() <= lo || hi <= table
    }

    function EspCell(i: nat): nat {
      table + THREAD_SIZE * i
    }

    function Lo(bases: seq<nat>, i: nat): nat
      requires i < |bases|
    {
      if i == 0 then bootLow else bases[i]
    }

    function Hi(bases: seq<nat>, i: nat): nat
      requires i < |bases|
    {
      if i == 0 then bootTop else bases[i] + SCHED_STACK_SIZE
    }
  }

  const BOOT_STACK_SIZE := 16384

  /** Where entry.o comes first in the link, its boot stack lies below the table: an admissible layout,
      whose thread 0 has room to switch. */
  lemma BootStackFirst(bottom: nat, table: nat)
    requires bottom + BOOT_STACK_SIZE <= table && table % 4 == 0 && table + THREAD_SIZE * SCHED_MAX_THREADS <= HEAP_START
    ensures var l := Layout(table, bottom, bottom + BOOT_STACK_SIZE);
      l.Ok() && forall bases: seq<nat> :: |bases| > 0 ==> l.Lo(bases, 0) + 32 <= l.Hi(bases, 0)
  {}

  // ----- stacks are live heap blocks -----

  ghost predicate StackAt(bs: seq<Block>, base: nat) {
    exists b: Block :: b in Live(bs) && b.Payload() == base && SCHED_STACK_SIZE <= b.size
  }

  /** Every living spawned thread has a heap block of its own for a stack; thread 0 has none. */
  ghost predicate Owned(bs: seq<Block>, bases: seq<nat>, states: seq<ThreadState>) {
    && 1 <= |states| <= |bases| && bases[0] == 0
    && (forall i :: 1 <= i < |states| && states[i] != Dead ==> StackAt(bs, bases[i]))
    && (forall i, j :: 1 <= i < j < |states| && states[i] != Dead && states[j] != Dead ==> bases[i] != bases[j])
  }

  lemma LiveIndex(bs: seq<Block>, b: Block) returns (k: nat)
    requires b in Live(bs)
    ensures k < |bs| && bs[k] == b && !b.free
  {
    LiveMembers(bs, b);
    k :| k < |bs| && bs[k] == b;
  }

  lemma StackIndex(bs: seq<Block>, base: nat) returns (k: nat)
    requires HeapInv(bs) && StackAt(bs, base)
    ensures k < |bs| && !bs[k].free && bs[k].Payload() == base && base + SCHED_STACK_SIZE <= bs[k].End()
    ensures HEAP_START < base && base + SCHED_STACK_SIZE <= HEAP_END && base in LivePtrs(bs) && base % 4 == 0
  {
    var b: Block :| b in Live(bs) && b.Payload() == base && SCHED_STACK_SIZE <= b.size;
    k := LiveIndex(bs, b);
    BlockFacts(bs, HEAP_START, HEAP_END, k);
  }

  /** Stacks of different living threads do not overlap. */
  lemma StacksApart(l: Layout, bs: seq<Block>, bases: seq<nat>, states: seq<ThreadState>, i: nat, j: nat)
    requires HeapInv(bs) && Owned(bs, bases, states) && l.Ok()
    requires i < |states| && j < |states| && i != j && states[i] != Dead && states[j] != Dead
    ensures l.Hi(bases, i) <= l.Lo(bases, j) || l.Hi(bases, j) <= l.Lo(bases, i)
  {
    if i == 0 || j == 0 {
      var k := StackIndex(bs, bases[if i == 0 then j else i]);
    } else {
      var p := StackIndex(bs, bases[i]);
      var q := StackIndex(bs, bases[j]);
      if p < q {
        BlocksApart(bs, HEAP_START, HEAP_END, p, q);
      } else if q < p {
        BlocksApart(bs, HEAP_START, HEAP_END, q, p);
      }
    }
  }

  /** A stack is outside the threads table and outside every block header. */
  lemma StackClear(l: Layout, bs: seq<Block>, bases: seq<nat>, states: seq<ThreadState>, i: nat, a: nat)
    requires HeapInv(bs) && Owned(bs, bases, states) && l.Ok()
    requires i < |states| && states[i] != Dead && l.Lo(bases, i) <= a < l.Hi(bases, i)
    ensures OutsideHeaders(a, Headers(bs)) && !(l.table <= a < l.TableEnd()) && a < HEAP_END
  {
    if i == 0 {
      BelowHeap(bs, a);
    } else {
      var k := StackIndex(bs, bases[i]);
      PayloadOutsideHeaders(bs, k, a);
    }
  }

  lemma BelowHeap(bs: seq<Block>, a: nat)
    requires HeapInv(bs) && a < HEAP_START
    ensures OutsideHeaders(a, Headers(bs))
  {
    forall i | 0 <= i < |bs|
      ensures a < bs[i].addr
    {
      BlockFacts(bs, HEAP_START, HEAP_END, i);
    }
  }

  lemma StackInside(l: Layout, bs: seq<Block>, bases: seq<nat>, states: seq<ThreadState>, i: nat, m: seq<word>)
    requires HeapInv(bs) && Owned(bs, bases, states) && l.Ok() && HEAP_END <= |m|
    requires i < |states| && states[i] != Dead
    ensures l.Hi(bases, i) <= |m|
  {
    if i > 0 {
      var k := StackIndex(bs, bases[i]);
      BlockFacts(bs, HEAP_START, HEAP_END, k);
    }
  }

  // ----- frames of suspended threads -----

  /** What popping six words from `e` loads. */
  function ReadFrame(m: seq<word>, e: nat): Frame
    requires e + 20 < |m|
  {
    Frame(m[e], m[e + 4], m[e + 8], m[e + 12], m[e + 16], m[e + 20], e + 24)
  }

  /** The saved stack pointer points into `[lo, hi)`, at the words of frame `f`. */
  ghost predicate Suspended(m: seq<word>, cell: nat, lo: nat, hi: nat, f: Frame) {
    && cell < |m| && hi <= |m|
    && lo <= m[cell] && m[cell] + 24 <= hi && m[cell] % 4 == 0
    && ReadFrame(m, m[cell]) == f
  }

  ghost predicate FramesKept(l: Layout, m: seq<word>, bases: seq<nat>, states: seq<ThreadState>, saved: seq<Frame>) {
    && |saved| == |states| <= |bases|
    && forall i: nat :: i < |states| && states[i] == Ready ==>
      Suspended(m, l.EspCell(i), l.Lo(bases, i), l.Hi(bases, i), saved[i])
  }

  /** A frame survives changes elsewhere. */
  lemma SuspendedStays(m: seq<word>, r: seq<word>, cell: nat, lo: nat, hi: nat, f: Frame)
    requires Suspended(m, cell, lo, hi, f) && |r| == |m|
    requires r[cell] == m[cell] && forall a: nat :: lo <= a < hi ==> r[a] == m[a]
    ensures Suspended(r, cell, lo, hi, f)
  {}

  /** Memory in which only one living thread's stack and saved stack pointer changed keeps the
      heap's headers and the frames of all other suspended threads. */
  lemma OwnStackOnly(l: Layout, bs: seq<Block>, bases: seq<nat>, states: seq<ThreadState>, saved: seq<Frame>, p: nat, m: seq<word>, r: seq<word>)
    requires HeapInv(bs) && Owned(bs, bases, states) && l.Ok() && FramesKept(l, m, bases, states, saved)
    requires p < |states| <= SCHED_MAX_THREADS && states[p] != Dead && |r| == |m|
    requires forall a: nat :: a < |m| && a != l.EspCell(p) && !(l.Lo(bases, p) <= a < l.Hi(bases, p)) ==> r[a] == m[a]
    ensures SameHeaderWords(m, r, bs)
    ensures forall i: nat :: i < |states| && states[i] == Ready && i != p ==>
      Suspended(r, l.EspCell(i), l.Lo(bases, i), l.Hi(bases, i), saved[i])
  {
    forall a: nat | a < |m| && !OutsideHeaders(a, Headers(bs))
      ensures r[a] == m[a]
    {
      if l.Lo(bases, p) <= a < l.Hi(bases, p) {
        StackClear(l, bs, bases, states, p, a);
      }
      if a < HEAP_START {
        BelowHeap(bs, a);
      }
    }
    forall i: nat | i < |states| && states[i] == Ready && i != p
      ensures Suspended(r, l.EspCell(i), l.Lo(bases, i), l.Hi(bases, i), saved[i])
    {
      StacksApart(l, bs, bases, states, i, p);
      CellClear(l, bs, bases, states, p, i);
      forall a: nat | l.Lo(bases, i) <= a < l.Hi(bases, i)
        ensures r[a] == m[a]
      {
        StackClear(l, bs, bases, states, i, a);
      }
      SuspendedStays(m, r, l.EspCell(i), l.Lo(bases, i), l.Hi(bases, i), saved[i]);
    }
  }

  lemma CellClear(l: Layout, bs: seq<Block>, bases: seq<nat>, states: seq<ThreadState>, p: nat, i: nat)
    requires HeapInv(bs) && Owned(bs, bases, states) && l.Ok()
    requires p < |states| && states[p] != Dead && i < SCHED_MAX_THREADS
    ensures !(l.Lo(bases, p) <= l.EspCell(i) < l.Hi(bases, p))
  {
    if l.Lo(bases, p) <= l.EspCell(i) < l.Hi(bases, p) {
      StackClear(l, bs, bases, states, p, l.EspCell(i));
    }
  }

  // ----- heap calls leave the stacks alone -----

  lemma LiveThroughMalloc(bs: seq<Block>, size: nat, b: Block)
    requires HeapInv(bs) && b in Live(bs)
    ensures b in Live(Malloc(bs, size).1)
  {
    MallocKeeps(bs, size);
  }

  lemma LiveThroughFree(bs: seq<Block>, p: nat, b: Block)
    requires HeapInv(bs) && b in Live(bs) && b.Payload() != p && p in LivePtrs(bs)
    ensures b in Live(Free(bs, p))
  {
    var i :| 0 <= i < |bs| && !bs[i].free && bs[i].Payload() == p;
    FreeKeeps(bs, i);
    LiveSplit(bs, i);
  }

  lemma LiveSplit(bs: seq<Block>, i: nat)
    requires i < |bs| && !bs[i].free
    ensures Live(bs) == Live(bs[..i]) + [bs[i]] + Live(bs[i + 1..])
  {
    ReplaceLive(bs, i, [bs[i]]);
    OneBlock(bs[i]);
  }

  lemma OwnedThroughMalloc(bs: seq<Block>, size: nat, bases: seq<nat>, states: seq<ThreadState>)
    requires HeapInv(bs) && Owned(bs, bases, states)
    ensures HeapInv(Malloc(bs, size).1) && Owned(Malloc(bs, size).1, bases, states)
  {
    MallocKeeps(bs, size);
    forall i | 1 <= i < |states| && states[i] != Dead
      ensures StackAt(Malloc(bs, size).1, bases[i])
    {
      var b: Block :| b in Live(bs) && b.Payload() == bases[i] && SCHED_STACK_SIZE <= b.size;
      LiveThroughMalloc(bs, size, b);
    }
  }

  lemma OwnedThroughFree(bs: seq<Block>, p: nat, bases: seq<nat>, states: seq<ThreadState>)
    requires HeapInv(bs) && Owned(bs, bases, states) && p in LivePtrs(bs)
    requires forall i :: 1 <= i < |states| && states[i] != Dead ==> bases[i] != p
    ensures HeapInv(Free(bs, p)) && Owned(Free(bs, p), bases, states)
  {
    FreePtrs(bs, p);
    forall i | 1 <= i < |states| && states[i] != Dead
      ensures StackAt(Free(bs, p), bases[i])
    {
      var b: Block :| b in Live(bs) && b.Payload() == bases[i] && SCHED_STACK_SIZE <= b.size;
      LiveThroughFree(bs, p, b);
    }
  }

  /** A block granted for a stack is big enough and no other thread's. */
  lemma NewStack(bs: seq<Block>, bases: seq<nat>, states: seq<ThreadState>)
    requires HeapInv(bs) && Owned(bs, bases, states) && Malloc(bs, SCHED_STACK_SIZE).0 != 0
    ensures var (p, r) := Malloc(bs, SCHED_STACK_SIZE);
      && StackAt(r, p)
      && forall i :: 1 <= i < |states| && states[i] != Dead ==> bases[i] != p
  {
    MallocKeeps(bs, SCHED_STACK_SIZE);
    var (p, r) := Malloc(bs, SCHED_STACK_SIZE);
    var i, b: Block :| 0 <= i < |bs| && bs[i].free && b.Payload() == p && !b.free
      && SCHED_STACK_SIZE <= b.size && Live(r) == Live(bs[..i]) + [b] + Live(bs[i + 1..]);
    assert b in Live(r);
    FirstFitExact(bs, AlignUp(SCHED_STACK_SIZE), 0);
    var f := FirstFit(bs, AlignUp(SCHED_STACK_SIZE), 0);
    forall j | 1 <= j < |states| && states[j] != Dead
      ensures bases[j] != p
    {
      var k := StackIndex(bs, bases[j]);
      PtrsDiffer(bs, k, f);
    }
  }

  /** Heap calls change no word of a suspended thread's frame. */
  lemma FramesThroughHeapCall(l: Layout, bs: seq<Block>, bases: seq<nat>, states: seq<ThreadState>, saved: seq<Frame>, m: seq<word>, r: seq<word>)
    requires HeapInv(bs) && Owned(bs, bases, states) && l.Ok() && |states| <= SCHED_MAX_THREADS
    requires FramesKept(l, m, bases, states, saved) && PayloadsKept(m, r, bs)
    ensures FramesKept(l, r, bases, states, saved)
  {
    forall i: nat | i < |states| && states[i] == Ready
      ensures Suspended(r, l.EspCell(i), l.Lo(bases, i), l.Hi(bases, i), saved[i])
    {
      forall a: nat | l.Lo(bases, i) <= a < l.Hi(bases, i)
        ensures r[a] == m[a]
      {
        if i > 0 {
          var k := StackIndex(bs, bases[i]);
          assert bs[k].Payload() <= a < bs[k].End();
        }
      }
      SuspendedStays(m, r, l.EspCell(i), l.Lo(bases, i), l.Hi(bases, i), saved[i]);
    }
  }

  // ----- switching -----

  /** What a switch from `prev` to `next` needs of memory and keeps: the frame pushed on `prev`'s
      stack is the one kept for it, and the frame popped is the one `next` had saved. */
  lemma SwitchKeeps(l: Layout, bs: seq<Block>, bases: seq<nat>, states: seq<ThreadState>, saved: seq<Frame>,
                    prev: nat, next: nat, m: seq<word>, r: seq<word>, mine: Frame)
    requires HeapInv(bs) && Owned(bs, bases, states) && l.Ok() && FramesKept(l, m, bases, states, saved)
    requires prev < |states| <= SCHED_MAX_THREADS && next < |states| && states[prev] == Running && states[next] == Ready
    requires |r| == |m|
    requires forall a: nat :: a < |m| && a != l.EspCell(prev) && !(l.Lo(bases, prev) <= a < l.Hi(bases, prev)) ==> r[a] == m[a]
    requires Suspended(r, l.EspCell(prev), l.Lo(bases, prev), l.Hi(bases, prev), mine)
    ensures var after := states[prev := Ready][next := Running];
      Owned(bs, bases, after) && FramesKept(l, r, bases, after, saved[prev := mine])
    ensures SameHeaderWords(m, r, bs)
    ensures l.EspCell(next) < |m| && m[l.EspCell(next)] + 24 <= |m| && ReadFrame(r, m[l.EspCell(next)]) == saved[next]
  {
    OwnStackOnly(l, bs, bases, states, saved, prev, m, r);
    CellClear(l, bs, bases, states, prev, next);
    assert Suspended(m, l.EspCell(next), l.Lo(bases, next), l.Hi(bases, next), saved[next]);
  }

  /** The same for a switch away from a thread that is gone: only its old stack, disjoint from all
      others and from the headers, was written. */
  lemma JumpKeeps(l: Layout, bs: seq<Block>, bases: seq<nat>, states: seq<ThreadState>, saved: seq<Frame>,
                  next: nat, lo: nat, hi: nat, m: seq<word>, r: seq<word>)
    requires HeapInv(bs) && Owned(bs, bases, states) && l.Ok() && FramesKept(l, m, bases, states, saved)
    requires next < |states| <= SCHED_MAX_THREADS && states[next] == Ready && |r| == |m|
    requires forall a: nat :: a < |m| && !(lo <= a < hi) ==> r[a] == m[a]
    requires ClearOf(l, bs, bases, states, lo, hi)
    ensures Owned(bs, bases, states[next := Running]) && FramesKept(l, r, bases, states[next := Running], saved)
    ensures SameHeaderWords(m, r, bs)
    ensures l.EspCell(next) < |m| && m[l.EspCell(next)] + 24 <= |m| && ReadFrame(r, m[l.EspCell(next)]) == saved[next]
  {
    forall i: nat | i < |states| && states[i] == Ready
      ensures Suspended(r, l.EspCell(i), l.Lo(bases, i), l.Hi(bases, i), saved[i])
    {
      assert l.table <= l.EspCell(i) < l.TableEnd();
      SuspendedStays(m, r, l.EspCell(i), l.Lo(bases, i), l.Hi(bases, i), saved[i]);
    }
    assert Suspended(r, l.EspCell(next), l.Lo(bases, next), l.Hi(bases, next), saved[next]);
    assert Suspended(m, l.EspCell(next), l.Lo(bases, next), l.Hi(bases, next), saved[next]);
  }

  /** The range holds no header, no saved stack pointer and no living thread's stack. */
  ghost predicate ClearOf(l: Layout, bs: seq<Block>, bases: seq<nat>, states: seq<ThreadState>, lo: nat, hi: nat)
    requires |states| <= |bases|
  {
    && (forall a: nat :: lo <= a < hi ==> OutsideHeaders(a, Headers(bs)))
    && l.ApartFromTable(lo, hi)
    && forall i: nat :: i < |states| && states[i] != Dead ==> l.Hi(bases, i) <= lo || hi <= l.Lo(bases, i)
  }

  lemma OwnedAfterDeath(bs: seq<Block>, bases: seq<nat>, states: seq<ThreadState>, t: nat)
    requires Owned(bs, bases, states) && t < |states|
    ensures Owned(bs, bases[t := 0], states[t := Dead])
  {}

  /** Once a thread is dead and its stack freed, the old stack overlaps nothing that matters. */
  lemma FreedStackClear(l: Layout, bs: seq<Block>, after: seq<Block>, bases: seq<nat>, states: seq<ThreadState>, t: nat)
    requires HeapInv(bs) && Owned(bs, bases, states) && l.Ok() && t < |states| && states[t] != Dead
    requires Headers(after) <= Headers(bs)
    ensures ClearOf(l, after, bases[t := 0], states[t := Dead], l.Lo(bases, t), l.Hi(bases, t))
  {
    forall a: nat | l.Lo(bases, t) <= a < l.Hi(bases, t)
      ensures OutsideHeaders(a, Headers(after))
    {
      StackClear(l, bs, bases, states, t, a);
    }
    if t > 0 {
      var k := StackIndex(bs, bases[t]);
    }
    forall i: nat | i < |states| && i != t && states[i] != Dead
      ensures l.Hi(bases, i) <= l.Lo(bases, t) || l.Hi(bases, t) <= l.Lo(bases, i)
    {
      StacksApart(l, bs, bases, states, i, t);
    }
  }

  lemma FramesAfterDeath(l: Layout, m: seq<word>, bases: seq<nat>, states: seq<ThreadState>, saved: seq<Frame>, t: nat)
    requires FramesKept(l, m, bases, states, saved) && t < |states| && states[t] == Running
    ensures FramesKept(l, m, bases[t := 0], states[t := Dead], saved)
  {
    forall i: nat | i < |states| && states[t := Dead][i] == Ready
      ensures Suspended(m, l.EspCell(i), l.Lo(bases[t := 0], i), l.Hi(bases[t := 0], i), saved[i])
    {
      assert Suspended(m, l.EspCell(i), l.Lo(bases, i), l.Hi(bases, i), saved[i]);
    }
  }

  // ----- spawning -----

  lemma OwnedWithNew(bs: seq<Block>, bases: seq<nat>, states: seq<ThreadState>, base: nat, s: ThreadState)
    requires Owned(bs, bases, states) && |states| < |bases| && StackAt(bs, base)
    requires forall i :: 1 <= i < |states| && states[i] != Dead ==> bases[i] != base
    ensures Owned(bs, bases[|states| := base], states + [s])
  {}

  /** A new thread whose first frame lies on its own fresh stack leaves everybody else's alone. */
  lemma SpawnKeepsFrames(l: Layout, bs: seq<Block>, bases: seq<nat>, states: seq<ThreadState>, saved: seq<Frame>,
                         m: seq<word>, r: seq<word>, first: Frame)
    requires HeapInv(bs) && l.Ok() && |states| < SCHED_MAX_THREADS && |r| == |m|
    requires Owned(bs, bases, states + [Ready]) && FramesKept(l, m, bases, states, saved)
    requires var id := |states|;
      forall a: nat :: a < |m| && a != l.EspCell(id) && !(l.Lo(bases, id) <= a < l.Hi(bases, id)) ==> r[a] == m[a]
    requires Suspended(r, l.EspCell(|states|), l.Lo(bases, |states|), l.Hi(bases, |states|), first)
    ensures FramesKept(l, r, bases, states + [Ready], saved + [first]) && SameHeaderWords(m, r, bs)
  {
    var id, more, kept := |states|, states + [Running], saved + [first];
    assert Owned(bs, bases, more);
    forall i: nat | i < |more| && more[i] == Ready
      ensures Suspended(m, l.EspCell(i), l.Lo(bases, i), l.Hi(bases, i), kept[i])
    {
      assert Suspended(m, l.EspCell(i), l.Lo(bases, i), l.Hi(bases, i), saved[i]);
    }
    OwnStackOnly(l, bs, bases, more, kept, id, m, r);
    forall i: nat | i <= id && (states + [Ready])[i] == Ready
      ensures Suspended(r, l.EspCell(i), l.Lo(bases, i), l.Hi(bases, i), kept[i])
    {
      if i < id {
        assert more[i] == Ready;
      }
    }
  }

  lemma OtherBase(l: Layout, m: seq<word>, bases: seq<nat>, states: seq<ThreadState>, saved: seq<Frame>, id: nat, base: nat)
    requires FramesKept(l, m, bases, states, saved) && |states| <= id < |bases|
    ensures FramesKept(l, m, bases[id := base], states, saved)
  {
    forall i: nat | i < |states| && states[i] == Ready
      ensures Suspended(m, l.EspCell(i), l.Lo(bases[id := base], i), l.Hi(bases[id := base], i), saved[i])
    {
      assert Suspended(m, l.EspCell(i), l.Lo(bases, i), l.Hi(bases, i), saved[i]);
    }
  }
}
