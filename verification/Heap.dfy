/** kmalloc and kfree over memory: block headers are words that link the blocks together. */
module Heap {
  import opened Bytes
  import opened HeapBlocks

  /** The address of the header after block `i`, 0 for the last. */
  function NextOf(bs: seq<Block>, i: nat): nat {
    if i + 1 < |bs| then bs[i + 1].addr else 0
  }

  /** The three header words: size, free flag, link. */
  ghost predicate HeaderAt(m: seq<word>, b: Block, next: nat) {
    && b.addr + 8 < |m|
    && m[b.addr] == b.size
    && m[b.addr + 4] == (if b.free then 1 else 0)
    && m[b.addr + 8] == next
  }

  ghost predicate StoredAt(m: seq<word>, bs: seq<Block>, i: nat)
    requires i < |bs|
  {
    HeaderAt(m, bs[i], NextOf(bs, i))
  }

  /** The header words in memory spell out the list. */
  ghost predicate Stored(m: seq<word>, bs: seq<Block>) {
    forall i: nat :: i < |bs| ==> StoredAt(m, bs, i)
  }

  ghost function Headers(bs: seq<Block>): set<nat> {
    set i | 0 <= i < |bs| :: bs[i].addr
  }

  ghost predicate OutsideHeaders(a: nat, hs: set<nat>) {
    forall h :: h in hs ==> a < h || h + HDR <= a
  }

  /** Memory agrees outside the header words at these addresses. */
  ghost predicate SameButHeaders(m: seq<word>, r: seq<word>, hs: set<nat>) {
    |r| == |m| && forall a: nat :: a < |m| && OutsideHeaders(a, hs) ==> r[a] == m[a]
  }

  /** No byte inside a block in use, and none outside the heap, differs. */
  ghost predicate PayloadsKept(m: seq<word>, r: seq<word>, bs: seq<Block>) {
    && |r| == |m|
    && (forall a: nat :: a < |m| && (a < HEAP_START || HEAP_END <= a) ==> r[a] == m[a])
    && (forall i, a: nat :: 0 <= i < |bs| && !bs[i].free && bs[i].Payload() <= a < bs[i].End() && a < |m| ==> r[a] == m[a])
  }

  lemma HeadersOnlyKeepsPayloads(m: seq<word>, r: seq<word>, bs: seq<Block>)
    requires HeapInv(bs) && SameButHeaders(m, r, Headers(bs))
    ensures PayloadsKept(m, r, bs)
  {
    forall a: nat | a < |m| && (a < HEAP_START || HEAP_END <= a)
      ensures r[a] == m[a]
    {
      forall i | 0 <= i < |bs|
        ensures a < bs[i].addr || bs[i].addr + HDR <= a
      {
        BlockFacts(bs, HEAP_START, HEAP_END, i);
      }
      assert OutsideHeaders(a, Headers(bs));
    }
    forall i, a: nat | 0 <= i < |bs| && bs[i].Payload() <= a < bs[i].End() && a < |m|
      ensures r[a] == m[a]
    {
      PayloadOutsideHeaders(bs, i, a);
    }
  }

  lemma PayloadOutsideHeaders(bs: seq<Block>, i: nat, a: nat)
    requires Tiles(bs, HEAP_START, HEAP_END) && i < |bs| && bs[i].Payload() <= a < bs[i].End()
    ensures OutsideHeaders(a, Headers(bs))
  {
    forall j | 0 <= j < |bs|
      ensures a < bs[j].addr || bs[j].addr + HDR <= a
    {
      if i < j { BlocksApart(bs, HEAP_START, HEAP_END, i, j); }
      if j < i { BlocksApart(bs, HEAP_START, HEAP_END, j, i); }
    }
  }

  ghost predicate SameHeaderWords(m: seq<word>, r: seq<word>, bs: seq<Block>) {
    |r| == |m| && forall a: nat :: a < |m| && !OutsideHeaders(a, Headers(bs)) ==> r[a] == m[a]
  }

  /** The list stays stored when no header word changes. */
  lemma StoredUntouched(m: seq<word>, r: seq<word>, bs: seq<Block>)
    requires Stored(m, bs) && SameHeaderWords(m, r, bs)
    ensures Stored(r, bs)
  {
    forall i: nat | i < |bs|
      ensures StoredAt(r, bs, i)
    {
      assert StoredAt(m, bs, i);
      assert bs[i].addr in Headers(bs);
    }
  }

  /** Blocks `i` to `i + c - 1` replaced by `mid`. */
  function Spliced(bs: seq<Block>, i: nat, c: nat, mid: seq<Block>): seq<Block>
    requires i + c <= |bs|
  {
    bs[..i] + mid + bs[i + c..]
  }

  /** Rewriting memory inside the range of some blocks, so that it spells out `mid` there, stores
      the spliced list. */
  lemma SplicedStored(m: seq<word>, r: seq<word>, bs: seq<Block>, i: nat, c: nat, mid: seq<Block>)
    requires Tiles(bs, HEAP_START, HEAP_END) && Stored(m, bs) && |r| == |m|
    requires 0 < c && i + c <= |bs| && mid != [] && mid[0].addr == bs[i].addr
    requires forall j: nat :: i <= j < i + |mid| ==> StoredAt(r, Spliced(bs, i, c, mid), j)
    requires forall a: nat :: a < |m| && (a < bs[i].addr || bs[i + c - 1].End() <= a) ==> r[a] == m[a]
    ensures Stored(r, Spliced(bs, i, c, mid))
  {
    forall j: nat | j < |Spliced(bs, i, c, mid)| && !(i <= j < i + |mid|)
      ensures StoredAt(r, Spliced(bs, i, c, mid), j)
    {
      SplicedOutside(m, r, bs, i, c, mid, j);
    }
  }

  lemma SplicedOutside(m: seq<word>, r: seq<word>, bs: seq<Block>, i: nat, c: nat, mid: seq<Block>, j: nat)
    requires Tiles(bs, HEAP_START, HEAP_END) && Stored(m, bs) && |r| == |m|
    requires 0 < c && i + c <= |bs| && mid != [] && mid[0].addr == bs[i].addr
    requires forall a: nat :: a < |m| && (a < bs[i].addr || bs[i + c - 1].End() <= a) ==> r[a] == m[a]
    requires j < |Spliced(bs, i, c, mid)| && !(i <= j < i + |mid|)
    ensures StoredAt(r, Spliced(bs, i, c, mid), j)
  {
    if j < i {
      BlocksApart(bs, HEAP_START, HEAP_END, j, i);
      SplicedBefore(m, r, bs, i, c, mid, j);
    } else {
      BlocksApart(bs, HEAP_START, HEAP_END, i + c - 1, j - |mid| + c);
      SplicedAfter(m, r, bs, i, c, mid, j - |mid| + c);
    }
  }

  lemma SplicedBefore(m: seq<word>, r: seq<word>, bs: seq<Block>, i: nat, c: nat, mid: seq<Block>, j: nat)
    requires Stored(m, bs) && |r| == |m|
    requires j < i && i + c <= |bs| && 0 < c && mid != [] && mid[0].addr == bs[i].addr && bs[j].End() <= bs[i].addr
    requires forall a: nat :: a < |m| && a < bs[i].addr ==> r[a] == m[a]
    ensures StoredAt(r, Spliced(bs, i, c, mid), j)
  {
    assert StoredAt(m, bs, j);
  }

  lemma SplicedAfter(m: seq<word>, r: seq<word>, bs: seq<Block>, i: nat, c: nat, mid: seq<Block>, k: nat)
    requires Stored(m, bs) && |r| == |m|
    requires i + c <= k < |bs| && 0 < c && bs[i + c - 1].End() <= bs[k].addr
    requires forall a: nat :: a < |m| && bs[i + c - 1].End() <= a ==> r[a] == m[a]
    ensures k - c + |mid| < |Spliced(bs, i, c, mid)|
    ensures StoredAt(r, Spliced(bs, i, c, mid), k - c + |mid|)
  {
    assert StoredAt(m, bs, k);
  }

  /** Memory that changed only inside one free block has kept every payload in use. */
  lemma FreeRangeKeepsPayloads(m: seq<word>, r: seq<word>, bs: seq<Block>, i: nat)
    requires HeapInv(bs) && i < |bs| && bs[i].free && |r| == |m|
    requires forall a: nat :: a < |m| && (a < bs[i].addr || bs[i].End() <= a) ==> r[a] == m[a]
    ensures PayloadsKept(m, r, bs)
  {
    BlockFacts(bs, HEAP_START, HEAP_END, i);
    forall j, a: nat | 0 <= j < |bs| && !bs[j].free && bs[j].Payload() <= a < bs[j].End() && a < |m|
      ensures r[a] == m[a]
    {
      BlocksApart(bs, HEAP_START, HEAP_END, if i < j then i else j, if i < j then j else i);
    }
  }

  /** Memory in which the pieces of a free block are spelled out, and nothing else changed, stores the
      carved list. */
  lemma CarvedStored(m: seq<word>, r: seq<word>, bs: seq<Block>, i: nat, n: nat)
    requires HeapInv(bs) && Stored(m, bs) && i < |bs| && bs[i].free && n <= bs[i].size && |r| == |m|
    requires var mid := Pieces(bs[i], n);
      && HeaderAt(r, mid[0], if |mid| == 2 then mid[1].addr else NextOf(bs, i))
      && (|mid| == 2 ==> HeaderAt(r, mid[1], NextOf(bs, i)))
    requires forall a: nat :: a < |m| && (a < bs[i].addr || bs[i].End() <= a) ==> r[a] == m[a]
    ensures Stored(r, Carve(bs, i, n)) && PayloadsKept(m, r, bs)
  {
    var mid := Pieces(bs[i], n);
    assert Spliced(bs, i, 1, mid) == Carve(bs, i, n);
    assert StoredAt(r, Carve(bs, i, n), i);
    assert |mid| == 2 ==> StoredAt(r, Carve(bs, i, n), i + 1);
    SplicedStored(m, r, bs, i, 1, mid);
    FreeRangeKeepsPayloads(m, r, bs, i);
  }

  // ----- list surgery of the two loops -----

  /** Blocks `i` and `i + 1` made one. */
  function Merge(bs: seq<Block>, i: nat): seq<Block>
    requires i + 1 < |bs|
  {
    bs[..i] + [Block(bs[i].addr, bs[i].size + HDR + bs[i + 1].size, true)] + bs[i + 2..]
  }

  lemma MergeTiles(bs: seq<Block>, i: nat)
    requires Tiles(bs, HEAP_START, HEAP_END) && i + 1 < |bs|
    ensures Tiles(Merge(bs, i), HEAP_START, HEAP_END)
  {
    var a, b := bs[i], bs[i + 1];
    BlockFacts(bs, HEAP_START, HEAP_END, i);
    BlockFacts(bs, HEAP_START, HEAP_END, i + 1);
    MergedTile(a, b);
    assert Tiles(bs[..i], HEAP_START, a.addr) by { TilesSplit(bs, HEAP_START, HEAP_END, i); }
    assert Tiles(bs[i + 2..], b.End(), HEAP_END) by { TilesSplit(bs, HEAP_START, HEAP_END, i + 1); }
    ThreeTiles(bs[..i], [Block(a.addr, a.size + HDR + b.size, true)], bs[i + 2..], HEAP_START, a.addr, b.End(), HEAP_END);
  }

  lemma MergedTile(a: Block, b: Block)
    requires a.addr % 4 == 0 && a.size % 4 == 0 && b.size % 4 == 0 && b.addr == a.End()
    ensures Tiles([Block(a.addr, a.size + HDR + b.size, true)], a.addr, b.End())
  {
    SumMultiple(a.size, b.size);
    OneTile(Block(a.addr, a.size + HDR + b.size, true));
  }

  lemma OneTile(b: Block)
    requires b.addr % 4 == 0 && b.size % 4 == 0
    ensures Tiles([b], b.addr, b.End())
  {
    assert [b][1..] == [];
  }

  lemma ThreeTiles(bs: seq<Block>, mid: seq<Block>, cs: seq<Block>, a: nat, m: nat, n: nat, e: nat)
    requires Tiles(bs, a, m) && Tiles(mid, m, n) && Tiles(cs, n, e)
    ensures Tiles(bs + mid + cs, a, e)
  {
    TilesConcat(bs, mid, a, m, n);
    TilesConcat(bs + mid, cs, a, n, e);
  }

  /** Merging at the loop's position does not change what the rest of the loop will make. */
  lemma MergeStep(bs: seq<Block>, i: nat)
    requires i + 1 < |bs| && bs[i].free && bs[i + 1].free
    ensures Merge(bs, i)[..i] == bs[..i] && Coalesce(Merge(bs, i)[i..]) == Coalesce(bs[i..])
  {
    var rest := bs[i..];
    assert rest[0] == bs[i] && rest[1] == bs[i + 1] && rest[2..] == bs[i + 2..];
    assert Merge(bs, i)[i..] == [Block(bs[i].addr, bs[i].size + HDR + bs[i + 1].size, true)] + bs[i + 2..];
  }

  lemma AdvanceStep(bs: seq<Block>, i: nat)
    requires i < |bs| && !(i + 1 < |bs| && bs[i].free && bs[i + 1].free)
    ensures bs[..i] + Coalesce(bs[i..]) == bs[..i + 1] + Coalesce(bs[i + 1..])
  {
    var rest := bs[i..];
    assert rest[0] == bs[i] && rest[1..] == bs[i + 1..];
    if |rest| == 1 {
      assert bs[i + 1..] == [];
    }
    assert Coalesce(rest) == [bs[i]] + Coalesce(bs[i + 1..]);
    assert bs[..i + 1] == bs[..i] + [bs[i]];
  }

  lemma MarkedStored(m: seq<word>, r: seq<word>, bs: seq<Block>, k: nat)
    requires Tiles(bs, HEAP_START, HEAP_END) && Stored(m, bs) && k < |bs| && |r| == |m|
    requires bs[k].addr + 4 < |m| && r == m[bs[k].addr + 4 := 1]
    ensures Stored(r, SetFree(bs, k))
    ensures SameButHeaders(m, r, Headers(bs)) && Headers(SetFree(bs, k)) == Headers(bs)
  {
    var b := bs[k].(free := true);
    assert StoredAt(m, bs, k);
    assert Spliced(bs, k, 1, [b]) == SetFree(bs, k);
    assert StoredAt(r, SetFree(bs, k), k);
    SplicedStored(m, r, bs, k, 1, [b]);
    assert bs[k].addr in Headers(bs);
    forall i | 0 <= i < |bs|
      ensures SetFree(bs, k)[i].addr == bs[i].addr
    {}
  }

  lemma MergedStored(m: seq<word>, r: seq<word>, bs: seq<Block>, i: nat)
    requires Tiles(bs, HEAP_START, HEAP_END) && Stored(m, bs) && i + 1 < |bs| && bs[i].free && bs[i + 1].free && |r| == |m|
    requires HeaderAt(r, Merge(bs, i)[i], NextOf(bs, i + 1))
    requires forall a: nat :: a < |m| && (a < bs[i].addr || bs[i].Payload() <= a) ==> r[a] == m[a]
    ensures Stored(r, Merge(bs, i))
    ensures SameButHeaders(m, r, Headers(bs)) && Headers(Merge(bs, i)) <= Headers(bs)
  {
    var merged := [Merge(bs, i)[i]];
    BlockFacts(bs, HEAP_START, HEAP_END, i);
    assert Spliced(bs, i, 2, merged) == Merge(bs, i);
    assert StoredAt(r, Merge(bs, i), i);
    SplicedStored(m, r, bs, i, 2, merged);
    assert bs[i].addr in Headers(bs);
    forall j | 0 <= j < |Merge(bs, i)|
      ensures Merge(bs, i)[j].addr in Headers(bs)
    {
      assert Merge(bs, i)[j].addr == bs[if j <= i then j else j + 1].addr;
    }
  }

  class Memory {
    /** Cell `a` holds the 32-bit word at byte address `a`; only word-aligned cells are used. */
    const mem: array<word>
    var heapHead: nat
    /** The blocks that the header words spell out. */
    ghost var blocks: seq<Block>

    /** The header words link the blocks of a tiling. */
    ghost predicate Linked()
      reads this, mem
    {
      && HEAP_END <= mem.Length < 0x1_0000_0000
      && heapHead == HEAP_START
      && Tiles(blocks, HEAP_START, HEAP_END)
      && Stored(mem[..], blocks)
    }

    ghost predicate Valid()
      reads this, mem
    {
      Linked() && Coalesced(blocks)
    }

    constructor (memory: array<word>)
      requires HEAP_END <= memory.Length < 0x1_0000_0000
      modifies memory
      ensures Valid() && mem == memory && blocks == Init()
      ensures mem[0x20_0000] == 0x10_0000 - 12 && mem[0x20_0004] == 1 && mem[0x20_0008] == 0
    {
      mem := memory;
      heapHead := HEAP_START;
      blocks := Init();
      new;
      mem[heapHead] := HEAP_SIZE - HDR;
      mem[heapHead + 4] := 1;
      mem[heapHead + 8] := 0;
      InitInv();
    }

    method Kmalloc(size: word) returns (p: nat)
      requires Valid()
      modifies mem, this`blocks
      ensures Valid() && (p, blocks) == Malloc(old(blocks), size)
      ensures PayloadsKept(old(mem[..]), mem[..], old(blocks))
      ensures p == 0 ==> mem[..] == old(mem[..])
      ensures size == 0 ==> p == 0
    {
      if size == 0 {
        return 0;
      }
      var n := AlignUp(size);
      FirstFitExact(blocks, n, 0);
      BlockFacts(blocks, HEAP_START, HEAP_END, 0);
      ghost var was := mem[..];
      assert StoredAt(was, blocks, 0);
      var b := heapHead;
      ghost var i := 0;
      while b != 0 && !(mem[b + 4] != 0 && mem[b] >= n)
        invariant i <= |blocks| && b == (if i < |blocks| then blocks[i].addr else 0)
        invariant mem[..] == was && (i < |blocks| ==> StoredAt(was, blocks, i) && b > 0)
        invariant FirstFit(blocks, n, 0) == FirstFit(blocks, n, i)
        modifies {}
        decreases |blocks| - i
      {
        if i + 1 < |blocks| {
          BlockFacts(blocks, HEAP_START, HEAP_END, i + 1);
          assert StoredAt(was, blocks, i + 1);
        }
        b := mem[b + 8];
        i := i + 1;
      }
      if b == 0 {
        return 0;
      }
      p := TakeBlock(b, n, i);
    }

    /** The granting branch of kmalloc: splits the block if the rest is worth it and marks it used. */
    method TakeBlock(b: nat, n: nat, ghost i: nat) returns (p: nat)
      requires Valid() && i < |blocks| && b == blocks[i].addr && blocks[i].free && n <= blocks[i].size && n % 8 == 0
      modifies mem, this`blocks
      ensures Valid() && p == old(blocks)[i].Payload() && blocks == Carve(old(blocks), i, n)
      ensures PayloadsKept(old(mem[..]), mem[..], old(blocks))
    {
      BlockFacts(blocks, HEAP_START, HEAP_END, i);
      assert StoredAt(mem[..], blocks, i);
      ghost var was, bs := mem[..], blocks;
      ghost var block, next := blocks[i], NextOf(blocks, i);
      if mem[b] >= (n + HDR + 8) % 0x1_0000_0000 {
        SplitBlock(b, n, block, next);
      }
      mem[b + 4] := 0;
      CarvedStored(was, mem[..], bs, i, n);
      CarveKeeps(bs, i, n);
      blocks := Carve(bs, i, n);
      p := b + HDR;
    }

    /** Writes the header of the rest of a block and links it in. */
    method SplitBlock(b: nat, n: nat, ghost blk: Block, ghost next: nat)
      requires b == blk.addr && blk.End() <= mem.Length && mem.Length < 0x1_0000_0000
      requires HeaderAt(mem[..], blk, next) && blk.size >= n + HDR + 8
      modifies mem
      ensures HeaderAt(mem[..], Block(b, n, blk.free), b + HDR + n)
      ensures HeaderAt(mem[..], Block(b + HDR + n, blk.size - n - HDR, true), next)
      ensures forall a: nat :: a < mem.Length && (a < blk.addr || blk.End() <= a) ==> mem[a] == old(mem[a])
    {
      var split := b + HDR + n;
      mem[split] := mem[b] - n - HDR;
      mem[split + 4] := 1;
      mem[split + 8] := mem[b + 8];
      mem[b + 8] := split;
      mem[b] := n;
    }

    method Kfree(ptr: nat)
      requires Valid()
      requires ptr == 0 || ptr in LivePtrs(blocks)
      modifies mem, this`blocks
      ensures Valid() && blocks == Free(old(blocks), ptr)
      ensures PayloadsKept(old(mem[..]), mem[..], old(blocks))
      ensures SameButHeaders(old(mem[..]), mem[..], Headers(old(blocks))) && Headers(blocks) <= Headers(old(blocks))
    {
      if ptr == 0 {
        NullIsNoBlock(blocks, HEAP_START, HEAP_END);
        return;
      }
      ghost var bs, was := blocks, mem[..];
      ghost var k :| 0 <= k < |bs| && !bs[k].free && bs[k].Payload() == ptr;
      FreeKeeps(bs, k);
      SetFreeKeeps(bs, k);
      BlockFacts(bs, HEAP_START, HEAP_END, k);
      assert StoredAt(was, bs, k);
      mem[ptr - HDR + 4] := 1;
      MarkedStored(was, mem[..], bs, k);
      blocks := SetFree(bs, k);
      CoalesceList();
      HeadersOnlyKeepsPayloads(was, mem[..], bs);
    }

    /** The loop of kfree: walks the list and joins each free block with its free right neighbours. */
    method CoalesceList()
      requires Linked()
      modifies mem, this`blocks
      ensures Linked() && blocks == Coalesce(old(blocks))
      ensures SameButHeaders(old(mem[..]), mem[..], Headers(old(blocks))) && Headers(blocks) <= Headers(old(blocks))
    {
      ghost var was, orig := mem[..], blocks;
      var cur := heapHead;
      ghost var i := 0;
      assert blocks[..0] + Coalesce(blocks[0..]) == Coalesce(orig);
      while cur != 0
        invariant Linked()
        invariant i <= |blocks| && cur == (if i < |blocks| then blocks[i].addr else 0)
        invariant i < |blocks| ==> cur > 0
        invariant blocks[..i] + Coalesce(blocks[i..]) == Coalesce(orig)
        invariant SameButHeaders(was, mem[..], Headers(orig)) && Headers(blocks) <= Headers(orig)
        decreases |blocks|, |blocks| - i
      {
        BlockFacts(blocks, HEAP_START, HEAP_END, i);
        assert StoredAt(mem[..], blocks, i);
        var next := mem[cur + 8];
        if i + 1 < |blocks| {
          BlockFacts(blocks, HEAP_START, HEAP_END, i + 1);
          assert StoredAt(mem[..], blocks, i + 1);
        }
        if mem[cur + 4] != 0 && next != 0 && mem[next + 4] != 0 {
          JoinNext(cur, next, i);
        } else {
          AdvanceStep(blocks, i);
          cur := next;
          i := i + 1;
        }
      }
      assert blocks[..i] == blocks && blocks[i..] == [];
    }

    /** Joins block `i` with its right neighbour. */
    method JoinNext(cur: nat, next: nat, ghost i: nat)
      requires Linked() && i + 1 < |blocks| && blocks[i].free && blocks[i + 1].free
      requires cur == blocks[i].addr && next == blocks[i + 1].addr
      modifies mem, this`blocks
      ensures Linked() && blocks == Merge(old(blocks), i)
      ensures blocks[..i] + Coalesce(blocks[i..]) == old(blocks)[..i] + Coalesce(old(blocks)[i..])
      ensures SameButHeaders(old(mem[..]), mem[..], Headers(old(blocks))) && Headers(blocks) <= Headers(old(blocks))
    {
      ghost var bs, was := blocks, mem[..];
      BlockFacts(bs, HEAP_START, HEAP_END, i);
      BlockFacts(bs, HEAP_START, HEAP_END, i + 1);
      assert StoredAt(was, bs, i) && StoredAt(was, bs, i + 1);
      mem[cur] := mem[cur] + HDR + mem[next];
      mem[cur + 8] := mem[next + 8];
      MergeTiles(bs, i);
      MergeStep(bs, i);
      MergedStored(was, mem[..], bs, i);
      blocks := Merge(bs, i);
    }

    method MmUsed() returns (used: nat)
      requires Valid()
      ensures used == Used(blocks) < 0x1_0000_0000
    {
      used := 0;
      var b := heapHead;
      ghost var i := 0;
      Accounting(blocks, HEAP_START, HEAP_END);
      BlockFacts(blocks, HEAP_START, HEAP_END, 0);
      while b != 0
        invariant i <= |blocks| && b == (if i < |blocks| then blocks[i].addr else 0) && (i < |blocks| ==> b > 0)
        invariant used + Used(blocks[i..]) == Used(blocks)
        decreases |blocks| - i
      {
        BlockFacts(blocks, HEAP_START, HEAP_END, i);
        if i + 1 < |blocks| { BlockFacts(blocks, HEAP_START, HEAP_END, i + 1); }
        assert StoredAt(mem[..], blocks, i);
        assert blocks[i..][1..] == blocks[i + 1..];
        if mem[b + 4] == 0 {
          used := used + HDR + mem[b];
        }
        b := mem[b + 8];
        i := i + 1;
      }
      assert blocks[i..] == [];
    }

    method MmFree() returns (free: nat)
      requires Valid()
      ensures free == FreeBytes(blocks) < 0x1_0000_0000
    {
      free := 0;
      var b := heapHead;
      ghost var i := 0;
      Accounting(blocks, HEAP_START, HEAP_END);
      BlockFacts(blocks, HEAP_START, HEAP_END, 0);
      while b != 0
        invariant i <= |blocks| && b == (if i < |blocks| then blocks[i].addr else 0) && (i < |blocks| ==> b > 0)
        invariant free + FreeBytes(blocks[i..]) == FreeBytes(blocks)
        decreases |blocks| - i
      {
        BlockFacts(blocks, HEAP_START, HEAP_END, i);
        if i + 1 < |blocks| { BlockFacts(blocks, HEAP_START, HEAP_END, i + 1); }
        assert StoredAt(mem[..], blocks, i);
        assert blocks[i..][1..] == blocks[i + 1..];
        if mem[b + 4] != 0 {
          free := free + mem[b];
        }
        b := mem[b + 8];
        i := i + 1;
      }
      assert blocks[i..] == [];
    }
  }
}
