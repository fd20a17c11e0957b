/** The kernel heap as the list of its blocks: first fit with splitting, full coalescing. */
module HeapBlocks {
  const HEAP_START := 0x20_0000
  const HEAP_SIZE := 0x10_0000
  const HEAP_END := HEAP_START + HEAP_SIZE
  const HDR := 12

  /** A header at `addr` followed by `size` payload bytes. */
  datatype Block = Block(addr: nat, size: nat, free: bool) {
    function End(): nat {
      addr + HDR + size
    }

    function Payload(): nat {
      addr + HDR
    }
  }

  /** align_up on 32 bits: rounds up to a multiple of 8, wrapping. */
  function AlignUp(n: nat): nat {
    (n + 7) % 0x1_0000_0000 / 8 * 8
  }

  // ----- well-formed lists -----

  /** The blocks fill `[a, e)` without gap or overlap. */
  ghost predicate Tiles(bs: seq<Block>, a: nat, e: nat)
    decreases |bs|
  {
    if bs == [] then a == e
    else bs[0].addr == a && bs[0].addr % 4 == 0 && bs[0].size % 4 == 0 && Tiles(bs[1..], bs[0].End(), e)
  }

  ghost predicate Coalesced(bs: seq<Block>) {
    forall i, j :: 0 <= i && j == i + 1 && j < |bs| ==> !(bs[i].free && bs[j].free)
  }

  /** What every heap state keeps: the blocks tile the heap and no two neighbours are free. */
  ghost predicate HeapInv(bs: seq<Block>) {
    Tiles(bs, HEAP_START, HEAP_END) && Coalesced(bs)
  }

  /** The blocks in use, in address order. */
  ghost function Live(bs: seq<Block>): (r: seq<Block>) {
    if bs == [] then [] else (if bs[0].free then [] else [bs[0]]) + Live(bs[1..])
  }

  lemma {:induction false} TilesBounds(bs: seq<Block>, a: nat, e: nat)
    requires Tiles(bs, a, e)
    ensures a <= e && (bs != [] ==> a + HDR <= e)
    ensures forall i :: 0 <= i < |bs| ==> a <= bs[i].addr && bs[i].End() <= e && bs[i].addr % 4 == 0 && bs[i].size % 4 == 0
    ensures forall i, j :: 0 <= i < j < |bs| ==> bs[i].End() <= bs[j].addr
    ensures forall i, j :: 0 <= i && j == i + 1 && j < |bs| ==> bs[j].addr == bs[i].End()
    decreases |bs|
  {
    if bs != [] {
      TilesBounds(bs[1..], bs[0].End(), e);
      forall i, j | 0 <= i < j < |bs|
        ensures bs[i].End() <= bs[j].addr
      {
        if i > 0 { assert bs[1..][i - 1].End() <= bs[1..][j - 1].addr; }
      }
      forall i, j | 0 <= i && j == i + 1 && j < |bs|
        ensures bs[j].addr == bs[i].End()
      {
        if i > 0 { assert bs[1..][j - 1].addr == bs[1..][i - 1].End(); }
      }
    }
  }

  /** What a tiling says about block `i` and its right neighbour. */
  lemma BlockFacts(bs: seq<Block>, a: nat, e: nat, i: nat)
    requires Tiles(bs, a, e) && i < |bs|
    ensures a <= bs[i].addr && bs[i].End() <= e && bs[i].addr % 4 == 0 && bs[i].size % 4 == 0
    ensures i + 1 < |bs| ==> bs[i + 1].addr == bs[i].End()
    ensures i + 1 == |bs| ==> bs[i].End() == e
  {
    TilesBounds(bs, a, e);
    TilesSplit(bs, a, e, i);
  }

  lemma BlocksApart(bs: seq<Block>, a: nat, e: nat, i: nat, j: nat)
    requires Tiles(bs, a, e) && i < j < |bs|
    ensures bs[i].End() <= bs[j].addr
  {
    TilesBounds(bs, a, e);
  }

  /** Lists that tile neighbouring ranges tile the whole range, and a tiling splits at every block. */
  lemma {:induction false} TilesConcat(bs: seq<Block>, cs: seq<Block>, a: nat, m: nat, e: nat)
    requires Tiles(bs, a, m) && Tiles(cs, m, e)
    ensures Tiles(bs + cs, a, e)
    decreases |bs|
  {
    if bs == [] {
      assert bs + cs == cs;
    } else {
      TilesConcat(bs[1..], cs, bs[0].End(), m, e);
      assert (bs + cs)[1..] == bs[1..] + cs;
    }
  }

  lemma {:induction false} TilesSplit(bs: seq<Block>, a: nat, e: nat, i: nat)
    requires Tiles(bs, a, e) && i < |bs|
    ensures Tiles(bs[..i], a, bs[i].addr) && Tiles(bs[i + 1..], bs[i].End(), e)
    ensures bs[i].addr % 4 == 0 && bs[i].size % 4 == 0
    decreases i
  {
    if i > 0 {
      TilesSplit(bs[1..], bs[0].End(), e, i - 1);
      assert bs[1..][..i - 1] == bs[..i][1..];
      assert bs[1..][i..] == bs[i + 1..];
    }
  }

  lemma {:induction false} LiveConcat(bs: seq<Block>, cs: seq<Block>)
    ensures Live(bs + cs) == Live(bs) + Live(cs)
    decreases |bs|
  {
    if bs == [] {
      assert bs + cs == cs;
    } else {
      LiveConcat(bs[1..], cs);
      assert (bs + cs)[1..] == bs[1..] + cs;
    }
  }

  lemma {:induction false} LiveMembers(bs: seq<Block>, b: Block)
    ensures b in Live(bs) <==> b in bs && !b.free
  {
    if bs != [] {
      LiveMembers(bs[1..], b);
      assert bs == [bs[0]] + bs[1..];
    }
  }

  /** Fully coalesced tilings with the same blocks in use are equal: the free blocks are just the gaps. */
  lemma {:induction false} LiveDetermines(bs: seq<Block>, cs: seq<Block>, a: nat, e: nat)
    requires Tiles(bs, a, e) && Coalesced(bs) && Tiles(cs, a, e) && Coalesced(cs)
    requires Live(bs) == Live(cs)
    ensures bs == cs
    decreases |bs|
  {
    TilesBounds(bs, a, e);
    TilesBounds(cs, a, e);
    if bs != [] && cs != [] {
      SameHead(bs, cs, a, e);
      assert Coalesced(bs[1..]) && Coalesced(cs[1..]) by {
        TailCoalesced(bs);
        TailCoalesced(cs);
      }
      LiveDetermines(bs[1..], cs[1..], bs[0].End(), e);
      assert bs == [bs[0]] + bs[1..] && cs == [cs[0]] + cs[1..];
    }
  }

  lemma TailCoalesced(bs: seq<Block>)
    requires Coalesced(bs) && bs != []
    ensures Coalesced(bs[1..])
  {
    forall i, j | 0 <= i && j == i + 1 && j < |bs[1..]|
      ensures !(bs[1..][i].free && bs[1..][j].free)
    {
      assert !(bs[i + 1].free && bs[j + 1].free);
    }
  }

  /** Where the first block in use starts, or the end of the range. */
  ghost function FirstLive(bs: seq<Block>, e: nat): nat {
    if Live(bs) == [] then e else Live(bs)[0].addr
  }

  lemma {:induction false} FirstLiveBound(bs: seq<Block>, a: nat, e: nat)
    requires Tiles(bs, a, e)
    ensures a <= FirstLive(bs, e)
    ensures bs != [] && !bs[0].free ==> FirstLive(bs, e) == a
    ensures bs != [] && bs[0].free ==> bs[0].End() <= FirstLive(bs, e)
    decreases |bs|
  {
    if bs != [] {
      FirstLiveBound(bs[1..], bs[0].End(), e);
      assert bs[0].free ==> Live(bs) == Live(bs[1..]);
      assert !bs[0].free ==> Live(bs)[0] == bs[0];
    }
  }

  lemma SameHead(bs: seq<Block>, cs: seq<Block>, a: nat, e: nat)
    requires Tiles(bs, a, e) && Coalesced(bs) && bs != [] && Tiles(cs, a, e) && Coalesced(cs) && cs != []
    requires Live(bs) == Live(cs)
    ensures bs[0] == cs[0] && Live(bs[1..]) == Live(cs[1..])
  {
    FirstLiveBound(bs, a, e);
    FirstLiveBound(cs, a, e);
    if bs[0].free {
      HeadGap(bs, a, e);
      HeadGap(cs, a, e);
      assert Live(bs) == Live(bs[1..]) && Live(cs) == Live(cs[1..]);
    } else {
      assert Live(bs)[0] == bs[0] && Live(cs)[0] == cs[0];
      assert Live(bs)[1..] == Live(bs[1..]) && Live(cs)[1..] == Live(cs[1..]);
    }
  }

  lemma HeadGap(bs: seq<Block>, a: nat, e: nat)
    requires Tiles(bs, a, e) && Coalesced(bs) && bs != [] && bs[0].free
    ensures bs[0].End() == FirstLive(bs, e)
  {
    assert Live(bs) == Live(bs[1..]);
    if |bs| > 1 {
      assert !(bs[0].free && bs[1].free);
      assert bs[1..][0] == bs[1];
      FirstLiveBound(bs[1..], bs[0].End(), e);
    } else {
      assert bs[1..] == [];
    }
  }

  // ----- kmalloc and kfree on lists -----

  /** The first free block, from `i` on, of at least `n` bytes, or -1. */
  function FirstFit(bs: seq<Block>, n: nat, i: nat): int
    decreases |bs| - i
  {
    if i >= |bs| then -1
    else if bs[i].free && bs[i].size >= n then i
    else FirstFit(bs, n, i + 1)
  }

  /** A free block cut down to `n` bytes if the rest can hold a header and 8 bytes. */
  function Pieces(b: Block, n: nat): (r: seq<Block>)
    requires n <= b.size
    ensures 1 <= |r| <= 2
  {
    if b.size >= n + HDR + 8
    then [Block(b.addr, n, false), Block(b.addr + HDR + n, b.size - n - HDR, true)]
    else [Block(b.addr, b.size, false)]
  }

  function Carve(bs: seq<Block>, i: nat, n: nat): seq<Block>
    requires i < |bs| && n <= bs[i].size
  {
    bs[..i] + Pieces(bs[i], n) + bs[i + 1..]
  }

  lemma {:induction false} FirstFitExact(bs: seq<Block>, n: nat, i: nat)
    ensures var r := FirstFit(bs, n, i);
      if r < 0 then r == -1 && forall j :: i <= j < |bs| && bs[j].free ==> bs[j].size < n
      else i <= r < |bs| && bs[r].free && n <= bs[r].size && forall j :: i <= j < r && bs[j].free ==> bs[j].size < n
    decreases |bs| - i
  {
    if i < |bs| && !(bs[i].free && bs[i].size >= n) {
      FirstFitExact(bs, n, i + 1);
    }
  }

  /** The pointer kmalloc returns, 0 on failure, and the list it leaves. */
  function Malloc(bs: seq<Block>, size: nat): (nat, seq<Block>) {
    if size == 0 then (0, bs) else
      FirstFitExact(bs, AlignUp(size), 0);
      var i := FirstFit(bs, AlignUp(size), 0);
      if i < 0 then (0, bs) else (bs[i].Payload(), Carve(bs, i, AlignUp(size)))
  }

  /** The loop of kfree: neighbouring free blocks from the head on become one. */
  function Coalesce(bs: seq<Block>): (r: seq<Block>)
    decreases |bs|
  {
    if |bs| < 2 then bs
    else if bs[0].free && bs[1].free then Coalesce([Block(bs[0].addr, bs[0].size + HDR + bs[1].size, true)] + bs[2..])
    else [bs[0]] + Coalesce(bs[1..])
  }

  function SetFree(bs: seq<Block>, i: nat): seq<Block>
    requires i < |bs|
  {
    bs[i := bs[i].(free := true)]
  }

  /** Where the block with payload `ptr` is in the list, or -1. */
  function BlockOf(bs: seq<Block>, ptr: nat): (i: int)
    ensures i == -1 || (0 <= i < |bs| && bs[i].Payload() == ptr)
  {
    if bs == [] then -1
    else if bs[0].Payload() == ptr then 0
    else var i := BlockOf(bs[1..], ptr); if i < 0 then -1 else i + 1
  }

  function Free(bs: seq<Block>, ptr: nat): seq<Block> {
    var i := BlockOf(bs, ptr);
    if i < 0 then bs else Coalesce(SetFree(bs, i))
  }

  // ----- what the operations keep -----

  lemma SumMultiple(a: nat, b: nat)
    requires a % 4 == 0 && b % 4 == 0
    ensures (a + HDR + b) % 4 == 0
  {
    var p, q := a / 4, b / 4;
    assert a + HDR + b == 4 * (p + 3 + q);
  }

  /** Two neighbours as one block still tile. */
  lemma MergedTiles(bs: seq<Block>, a: nat, e: nat)
    requires |bs| >= 2 && Tiles(bs, a, e)
    ensures Tiles([Block(bs[0].addr, bs[0].size + HDR + bs[1].size, true)] + bs[2..], a, e)
  {
    var merged := [Block(bs[0].addr, bs[0].size + HDR + bs[1].size, true)] + bs[2..];
    assert bs[1..][0] == bs[1] && bs[1..][1..] == bs[2..] && merged[1..] == bs[2..];
    SumMultiple(bs[0].size, bs[1].size);
  }

  lemma CoalescedCons(b: Block, bs: seq<Block>)
    requires Coalesced(bs) && (bs == [] || !(b.free && bs[0].free))
    ensures Coalesced([b] + bs)
  {
    var r := [b] + bs;
    forall i, j | 0 <= i && j == i + 1 && j < |r|
      ensures !(r[i].free && r[j].free)
    {
      assert r[j] == bs[j - 1] && (i > 0 ==> r[i] == bs[i - 1]);
    }
  }

  lemma {:induction false} CoalesceKeeps(bs: seq<Block>, a: nat, e: nat)
    requires Tiles(bs, a, e)
    ensures Tiles(Coalesce(bs), a, e) && Coalesced(Coalesce(bs)) && Live(Coalesce(bs)) == Live(bs)
    ensures bs != [] ==> Coalesce(bs) != [] && Coalesce(bs)[0].free == bs[0].free
    decreases |bs|
  {
    if |bs| >= 2 {
      assert bs[1..][0] == bs[1] && bs[1..][1..] == bs[2..];
      if bs[0].free && bs[1].free {
        var merged := [Block(bs[0].addr, bs[0].size + HDR + bs[1].size, true)] + bs[2..];
        MergedTiles(bs, a, e);
        assert merged[1..] == bs[2..];
        CoalesceKeeps(merged, a, e);
        assert Live(bs) == Live(bs[2..]) && Live(merged) == Live(bs[2..]);
      } else {
        CoalesceKeeps(bs[1..], bs[0].End(), e);
        assert Coalesce(bs)[1..] == Coalesce(bs[1..]);
        CoalescedCons(bs[0], Coalesce(bs[1..]));
      }
    }
  }

  /** Replacing block `i` by blocks that tile its range. */
  lemma ReplaceTiles(bs: seq<Block>, i: nat, mid: seq<Block>, a: nat, e: nat)
    requires Tiles(bs, a, e) && i < |bs| && Tiles(mid, bs[i].addr, bs[i].End())
    ensures Tiles(bs[..i] + mid + bs[i + 1..], a, e)
  {
    TilesSplit(bs, a, e, i);
    TilesConcat(bs[..i], mid, a, bs[i].addr, bs[i].End());
    TilesConcat(bs[..i] + mid, bs[i + 1..], a, bs[i].End(), e);
  }

  lemma ReplaceLive(bs: seq<Block>, i: nat, mid: seq<Block>)
    requires i < |bs|
    ensures Live(bs[..i] + mid + bs[i + 1..]) == Live(bs[..i]) + Live(mid) + Live(bs[i + 1..])
    ensures Live(bs) == Live(bs[..i]) + Live([bs[i]]) + Live(bs[i + 1..])
  {
    LiveConcat(bs[..i], mid);
    LiveConcat(bs[..i] + mid, bs[i + 1..]);
    assert bs == bs[..i] + [bs[i]] + bs[i + 1..];
    LiveConcat(bs[..i], [bs[i]]);
    LiveConcat(bs[..i] + [bs[i]], bs[i + 1..]);
  }

  lemma PiecesTile(b: Block, n: nat)
    requires b.addr % 4 == 0 && b.size % 4 == 0 && n % 8 == 0 && n <= b.size
    ensures Tiles(Pieces(b, n), b.addr, b.End())
  {
    var mid := Pieces(b, n);
    if |mid| == 1 {
      assert mid[1..] == [];
    } else {
      Multiples(b.addr, b.size, n);
      assert mid[1..] == [mid[1]] && [mid[1]][1..] == [];
      assert Tiles([mid[1]], mid[1].addr, b.End());
    }
  }

  lemma Multiples(a: nat, s: nat, n: nat)
    requires a % 4 == 0 && s % 4 == 0 && n % 8 == 0 && n + HDR <= s
    ensures n % 4 == 0 && (a + HDR + n) % 4 == 0 && (s - n - HDR) % 4 == 0
  {
    var p, q, r := a / 4, s / 4, n / 8;
    assert a == 4 * p && s == 4 * q && n == 4 * (2 * r);
    assert a + HDR + n == 4 * (p + 3 + 2 * r) && s - n - HDR == 4 * (q - 2 * r - 3);
  }

  lemma PiecesLive(b: Block, n: nat)
    requires n <= b.size
    ensures Live(Pieces(b, n)) == [Pieces(b, n)[0]]
  {
    var mid := Pieces(b, n);
    if |mid| == 2 {
      OneBlock(mid[1]);
      assert mid[1..] == [mid[1]];
    } else {
      OneBlock(mid[0]);
    }
  }

  lemma CarveKeeps(bs: seq<Block>, i: nat, n: nat)
    requires HeapInv(bs) && i < |bs| && bs[i].free && n <= bs[i].size && n % 8 == 0
    ensures HeapInv(Carve(bs, i, n))
    ensures n <= Pieces(bs[i], n)[0].size < n + HDR + 8
  {
    TilesSplit(bs, HEAP_START, HEAP_END, i);
    PiecesTile(bs[i], n);
    ReplaceTiles(bs, i, Pieces(bs[i], n), HEAP_START, HEAP_END);
    CarveCoalesced(bs, i, n);
  }

  lemma LiveAroundFree(bs: seq<Block>, i: nat)
    requires i < |bs| && bs[i].free
    ensures Live(bs) == Live(bs[..i]) + Live(bs[i + 1..])
  {
    ReplaceLive(bs, i, []);
    OneBlock(bs[i]);
    assert Live(bs[..i]) + [] == Live(bs[..i]);
  }

  lemma CarveLive(bs: seq<Block>, i: nat, n: nat)
    requires i < |bs| && bs[i].free && n <= bs[i].size
    ensures Live(bs) == Live(bs[..i]) + Live(bs[i + 1..])
    ensures Live(Carve(bs, i, n)) == Live(bs[..i]) + [Pieces(bs[i], n)[0]] + Live(bs[i + 1..])
  {
    var mid := Pieces(bs[i], n);
    assert Live(mid) == [mid[0]] by { PiecesLive(bs[i], n); }
    assert Live(bs[..i] + mid + bs[i + 1..]) == Live(bs[..i]) + Live(mid) + Live(bs[i + 1..]) by { ReplaceLive(bs, i, mid); }
    LiveAroundFree(bs, i);
  }

  lemma OneBlock(b: Block)
    ensures Live([b]) == if b.free then [] else [b]
  {
    assert [b][1..] == [];
  }

  lemma CarveCoalesced(bs: seq<Block>, i: nat, n: nat)
    requires Coalesced(bs) && i < |bs| && bs[i].free && n <= bs[i].size
    ensures Coalesced(Carve(bs, i, n))
  {
    var r := Carve(bs, i, n);
    forall j, k | 0 <= j && k == j + 1 && k < |r|
      ensures !(r[j].free && r[k].free)
    {
      if k < i {
        assert !(bs[j].free && bs[k].free);
      } else if j > i {
        var shift := |r| - |bs|;
        if j - shift == i {
          assert !(bs[i].free && bs[i + 1].free);
        } else {
          assert !(bs[j - shift].free && bs[k - shift].free);
        }
      }
    }
  }

  lemma {:induction false} BlockOfExact(bs: seq<Block>, i: nat, a: nat, e: nat)
    requires Tiles(bs, a, e) && i < |bs|
    ensures BlockOf(bs, bs[i].Payload()) == i
    decreases |bs|
  {
    TilesBounds(bs, a, e);
    if i > 0 {
      BlockOfExact(bs[1..], i - 1, bs[0].End(), e);
    }
  }

  /** Freeing block `i` keeps the invariant and takes exactly that block out of use. */
  lemma FreeKeeps(bs: seq<Block>, i: nat)
    requires HeapInv(bs) && i < |bs|
    ensures Free(bs, bs[i].Payload()) == Coalesce(SetFree(bs, i))
    ensures HeapInv(Free(bs, bs[i].Payload()))
    ensures Live(Free(bs, bs[i].Payload())) == Live(bs[..i]) + Live(bs[i + 1..])
  {
    BlockOfExact(bs, i, HEAP_START, HEAP_END);
    SetFreeKeeps(bs, i);
    CoalesceKeeps(SetFree(bs, i), HEAP_START, HEAP_END);
  }

  lemma SetFreeKeeps(bs: seq<Block>, i: nat)
    requires Tiles(bs, HEAP_START, HEAP_END) && i < |bs|
    ensures Tiles(SetFree(bs, i), HEAP_START, HEAP_END)
    ensures Live(SetFree(bs, i)) == Live(bs[..i]) + Live(bs[i + 1..])
  {
    var b := bs[i].(free := true);
    assert SetFree(bs, i) == bs[..i] + [b] + bs[i + 1..];
    ReplaceLive(bs, i, [b]);
    OneBlock(b);
    assert Live(bs[..i]) + [] == Live(bs[..i]);
    assert Tiles([b], b.addr, b.End()) by {
      TilesSplit(bs, HEAP_START, HEAP_END, i);
      assert [b][1..] == [];
    }
    ReplaceTiles(bs, i, [b], HEAP_START, HEAP_END);
  }

  // ----- main results on lists -----

  /** kmalloc keeps the invariant; a grant carves one block in use out of a free one, large enough
      for every request whose rounding does not wrap. */
  lemma MallocKeeps(bs: seq<Block>, size: nat)
    requires HeapInv(bs)
    ensures HeapInv(Malloc(bs, size).1)
    ensures Malloc(bs, size).0 == 0 ==> Malloc(bs, size).1 == bs
    ensures Malloc(bs, size).0 != 0 ==> exists i, b: Block ::
      && 0 <= i < |bs| && bs[i].free && b.Payload() == Malloc(bs, size).0 && !b.free
      && (size <= 0xFFFF_FFF8 ==> size <= b.size)
      && Live(bs) == Live(bs[..i]) + Live(bs[i + 1..])
      && Live(Malloc(bs, size).1) == Live(bs[..i]) + [b] + Live(bs[i + 1..])
  {
    FirstFitExact(bs, AlignUp(size), 0);
    var i := FirstFit(bs, AlignUp(size), 0);
    if size > 0 && i >= 0 {
      CarveKeeps(bs, i, AlignUp(size));
      CarveLive(bs, i, AlignUp(size));
      if size <= 0xFFFF_FFF8 {
        GrantHoldsRequest(size);
      }
      var b := Pieces(bs[i], AlignUp(size))[0];
      assert b.Payload() == Malloc(bs, size).0;
    }
  }

  /** A size is rounded up to the next multiple of 8, and covers the request, exactly when that does
      not wrap; otherwise it becomes 0. */
  lemma GrantHoldsRequest(size: nat)
    requires 0 < size < 0x1_0000_0000
    ensures AlignUp(size) >= size <==> size <= 0xFFFF_FFF8
    ensures size <= 0xFFFF_FFF8 ==> AlignUp(size) % 8 == 0 && size <= AlignUp(size) < size + 8
    ensures size > 0xFFFF_FFF8 ==> AlignUp(size) == 0
  {
    if size <= 0xFFFF_FFF8 {
      var q := (size + 7) / 8;
      assert AlignUp(size) == 8 * q;
    }
  }

  /** What rounding makes of a request: the one multiple of 8 that is at least as large and less
      than 8 larger, or 0 near the top of the address range. */
  ghost predicate RoundedUp(size: nat, n: nat) {
    && 0 < size < 0x1_0000_0000 && n % 8 == 0
    && if size <= 0xFFFF_FFF8 then size <= n < size + 8 else n == 0
  }

  lemma RoundedIs(size: nat, n: nat)
    requires RoundedUp(size, n)
    ensures AlignUp(size) == n
  {
    GrantHoldsRequest(size);
    if size <= 0xFFFF_FFF8 {
      var p, q := n / 8, AlignUp(size) / 8;
      assert n == 8 * p && AlignUp(size) == 8 * q;
    }
  }

  /** Block `i` is the lowest free one of at least `n` bytes, its front is handed out at `p`, and `r` is left. */
  ghost predicate Grants(bs: seq<Block>, i: nat, n: nat, p: nat, r: seq<Block>)
    requires i < |bs|
  {
    && bs[i].free && n <= bs[i].size && (forall j :: 0 <= j < i && bs[j].free ==> bs[j].size < n)
    && p == bs[i].addr + 12
    && Live(bs) == Live(bs[..i]) + Live(bs[i + 1..])
    && Live(r) == Live(bs[..i]) + [Block(bs[i].addr, if bs[i].size >= n + 20 then n else bs[i].size, false)] + Live(bs[i + 1..])
  }

  /**
   * A request rounded up to `n` bytes takes the lowest free block of at least `n` bytes: exactly `n`
   * of them when the rest can hold a header and 8 bytes, else all. Nothing else goes into or out of
   * use, and null is returned, with the heap as it was, exactly when no free block has `n` bytes.
   */
  lemma MallocGrants(bs: seq<Block>, size: nat, n: nat)
    requires HeapInv(bs) && RoundedUp(size, n)
    ensures var (p, r) := Malloc(bs, size);
      && HeapInv(r)
      && ((exists i :: 0 <= i < |bs| && Grants(bs, i, n, p, r)) || (p == 0 && r == bs))
      && (p == 0 <==> forall i :: 0 <= i < |bs| && bs[i].free ==> bs[i].size < n)
    ensures Malloc(bs, 0) == (0, bs)
  {
    RoundedIs(size, n);
    FirstFitExact(bs, n, 0);
    var i := FirstFit(bs, n, 0);
    if i >= 0 {
      CarveKeeps(bs, i, n);
      CarveLive(bs, i, n);
      assert Pieces(bs[i], n)[0] == Block(bs[i].addr, if bs[i].size >= n + 20 then n else bs[i].size, false);
      assert Grants(bs, i, n, bs[i].Payload(), Carve(bs, i, n));
    }
  }

  /** The bytes of a run of blocks that one block could have if the run were free and merged. */
  ghost function RunCapacity(bs: seq<Block>, i: nat, j: nat): nat
    requires i <= j < |bs| && bs[i].addr + HDR <= bs[j].End()
  {
    bs[j].End() - bs[i].addr - HDR
  }

  /** A run of free blocks is a single block. */
  lemma RunIsOne(bs: seq<Block>, i: nat, j: nat)
    requires Coalesced(bs) && i <= j < |bs|
    ensures (forall k :: i <= k <= j ==> bs[k].free) ==> i == j
  {
    if i < j {
      assert !(bs[i].free && bs[i + 1].free);
    }
  }

  /** kmalloc fails exactly when no run of neighbouring free blocks, merged, could hold the request
      rounded up to `n` bytes. */
  lemma MallocComplete(bs: seq<Block>, size: nat, n: nat)
    requires HeapInv(bs) && RoundedUp(size, n)
    ensures Malloc(bs, size).0 == 0 <==>
      forall i, j :: 0 <= i <= j < |bs| && (forall k :: i <= k <= j ==> bs[k].free) ==>
        bs[i].addr + HDR <= bs[j].End() && RunCapacity(bs, i, j) < n
  {
    TilesBounds(bs, HEAP_START, HEAP_END);
    RoundedIs(size, n);
    FirstFitExact(bs, n, 0);
    var r := FirstFit(bs, n, 0);
    if r >= 0 {
      assert RunCapacity(bs, r, r) == bs[r].size;
      assert forall k :: r <= k <= r ==> bs[k].free;
    } else {
      forall i, j | 0 <= i <= j < |bs| && (forall k :: i <= k <= j ==> bs[k].free)
        ensures bs[i].addr + HDR <= bs[j].End() && RunCapacity(bs, i, j) < n
      {
        RunIsOne(bs, i, j);
      }
    }
  }

  /** Freeing what was just allocated restores the list exactly. */
  lemma FreeUndoesMalloc(bs: seq<Block>, size: nat)
    requires HeapInv(bs) && Malloc(bs, size).0 != 0
    ensures Free(Malloc(bs, size).1, Malloc(bs, size).0) == bs
  {
    FirstFitExact(bs, AlignUp(size), 0);
    CarveUndone(bs, FirstFit(bs, AlignUp(size), 0), AlignUp(size));
  }

  lemma CarveUndone(bs: seq<Block>, i: nat, n: nat)
    requires HeapInv(bs) && i < |bs| && bs[i].free && n <= bs[i].size && n % 8 == 0
    ensures Free(Carve(bs, i, n), bs[i].Payload()) == bs
  {
    var r := Carve(bs, i, n);
    assert HeapInv(r) by { CarveKeeps(bs, i, n); }
    assert r[i].Payload() == bs[i].Payload() && r[..i] == bs[..i];
    var f := Free(r, bs[i].Payload());
    assert HeapInv(f) && Live(f) == Live(r[..i]) + Live(r[i + 1..]) by { FreeKeeps(r, i); }
    assert Live(f) == Live(bs) by {
      TailLive(bs, i, n);
      LiveAroundFree(bs, i);
    }
    LiveDetermines(f, bs, HEAP_START, HEAP_END);
  }

  lemma TailLive(bs: seq<Block>, i: nat, n: nat)
    requires i < |bs| && n <= bs[i].size
    ensures Live(Carve(bs, i, n)[i + 1..]) == Live(bs[i + 1..])
  {
    var tail := Carve(bs, i, n)[i + 1..];
    if bs[i].size >= n + HDR + 8 {
      assert tail[1..] == bs[i + 1..] && tail[0].free;
      assert Live(tail) == Live(tail[1..]);
    } else {
      assert tail == bs[i + 1..];
    }
  }

  // ----- the blocks in use as a set of pointers -----

  ghost function LivePtrs(bs: seq<Block>): set<nat> {
    set i | 0 <= i < |bs| && !bs[i].free :: bs[i].Payload()
  }

  /** The list mm_init makes. */
  function Init(): seq<Block> {
    [Block(HEAP_START, HEAP_SIZE - HDR, true)]
  }

  lemma InitInv()
    ensures HeapInv(Init()) && Live(Init()) == [] && LivePtrs(Init()) == {}
    ensures Init() == [Block(0x20_0000, 0x10_0000 - 12, true)]
  {
    assert Init()[1..] == [];
  }

  lemma {:induction false} PtrsFromLive(bs: seq<Block>, p: nat)
    ensures p in LivePtrs(bs) <==> exists b: Block :: b in Live(bs) && b.Payload() == p
  {
    if p in LivePtrs(bs) {
      var i :| 0 <= i < |bs| && !bs[i].free && bs[i].Payload() == p;
      LiveMembers(bs, bs[i]);
    }
    if b: Block :| b in Live(bs) && b.Payload() == p {
      LiveMembers(bs, b);
      var i :| 0 <= i < |bs| && bs[i] == b;
    }
  }

  lemma PtrsDiffer(bs: seq<Block>, i: nat, j: nat)
    requires HeapInv(bs) && i < |bs| && j < |bs| && i != j
    ensures bs[i].Payload() != bs[j].Payload()
  {
    TilesBounds(bs, HEAP_START, HEAP_END);
  }

  /** kfree of a live pointer takes exactly that pointer out of use. */
  lemma FreePtrs(bs: seq<Block>, p: nat)
    requires HeapInv(bs) && p in LivePtrs(bs)
    ensures HeapInv(Free(bs, p)) && LivePtrs(Free(bs, p)) == LivePtrs(bs) - {p}
  {
    var i :| 0 <= i < |bs| && !bs[i].free && bs[i].Payload() == p;
    FreeKeeps(bs, i);
    forall q: nat
      ensures q in LivePtrs(Free(bs, p)) <==> q in LivePtrs(bs) - {p}
    {
      PtrsFromLive(Free(bs, p), q);
      PtrsFromLive(bs, q);
      LiveSplitPtr(bs, i, q);
    }
  }

  lemma LiveSplitPtr(bs: seq<Block>, i: nat, q: nat)
    requires HeapInv(bs) && i < |bs| && !bs[i].free
    ensures (exists b: Block :: b in Live(bs[..i]) + Live(bs[i + 1..]) && b.Payload() == q) <==>
      q != bs[i].Payload() && exists b: Block :: b in Live(bs) && b.Payload() == q
  {
    ReplaceLive(bs, i, [bs[i]]);
    OneBlock(bs[i]);
    assert bs == bs[..i] + [bs[i]] + bs[i + 1..];
    var rest := Live(bs[..i]) + Live(bs[i + 1..]);
    forall b: Block
      ensures b in Live(bs) <==> b == bs[i] || b in rest
      ensures b in rest ==> b.Payload() != bs[i].Payload()
    {
      LiveMembers(bs[..i], b);
      LiveMembers(bs[i + 1..], b);
      if b in bs[..i] {
        var j :| 0 <= j < i && bs[..i][j] == b;
        PtrsDiffer(bs, i, j);
      } else if b in bs[i + 1..] {
        var j :| 0 <= j < |bs| - i - 1 && bs[i + 1..][j] == b;
        PtrsDiffer(bs, i, i + 1 + j);
      }
    }
  }

  ghost function FreeAll(bs: seq<Block>, ptrs: seq<nat>): seq<Block>
    decreases |ptrs|
  {
    if ptrs == [] then bs else FreeAll(Free(bs, ptrs[0]), ptrs[1..])
  }

  ghost predicate NoRepeats(ptrs: seq<nat>) {
    forall i, j :: 0 <= i < j < |ptrs| ==> ptrs[i] != ptrs[j]
  }

  /** Freeing all live pointers, in any order, leads back to the single block of mm_init. */
  lemma {:induction false} FreeAllEmpties(bs: seq<Block>, ptrs: seq<nat>)
    requires HeapInv(bs) && NoRepeats(ptrs) && LivePtrs(bs) == set p | p in ptrs
    ensures FreeAll(bs, ptrs) == Init()
    decreases |ptrs|
  {
    if ptrs == [] {
      NothingLive(bs);
    } else {
      FreePtrs(bs, ptrs[0]);
      assert LivePtrs(Free(bs, ptrs[0])) == set p | p in ptrs[1..] by {
        assert ptrs == [ptrs[0]] + ptrs[1..];
      }
      FreeAllEmpties(Free(bs, ptrs[0]), ptrs[1..]);
    }
  }

  lemma NothingLive(bs: seq<Block>)
    requires HeapInv(bs) && LivePtrs(bs) == {}
    ensures bs == Init()
  {
    if Live(bs) != [] {
      LiveMembers(bs, Live(bs)[0]);
      PtrsFromLive(bs, Live(bs)[0].Payload());
    }
    InitInv();
    LiveDetermines(bs, Init(), HEAP_START, HEAP_END);
  }

  // ----- accounting -----

  /** mm_used: headers and payloads in use. */
  function Used(bs: seq<Block>): nat {
    if bs == [] then 0 else (if bs[0].free then 0 else HDR + bs[0].size) + Used(bs[1..])
  }

  /** mm_free: free payload bytes. */
  function FreeBytes(bs: seq<Block>): nat {
    if bs == [] then 0 else (if bs[0].free then bs[0].size else 0) + FreeBytes(bs[1..])
  }

  /** The payload bytes of all blocks of a list. */
  ghost function Sizes(bs: seq<Block>): nat {
    if bs == [] then 0 else bs[0].size + Sizes(bs[1..])
  }

  /** Used bytes are the sizes and headers of the blocks in use, free bytes the sizes of the others,
      and with the headers of the free blocks they add up to the range tiled. */
  lemma {:induction false} Accounting(bs: seq<Block>, a: nat, e: nat)
    requires Tiles(bs, a, e)
    ensures |Live(bs)| <= |bs|
    ensures Used(bs) == Sizes(Live(bs)) + 12 * |Live(bs)|
    ensures FreeBytes(bs) == Sizes(bs) - Sizes(Live(bs))
    ensures Used(bs) + FreeBytes(bs) + 12 * (|bs| - |Live(bs)|) == e - a
    decreases |bs|
  {
    if bs != [] {
      Accounting(bs[1..], bs[0].End(), e);
      assert !bs[0].free ==> Live(bs)[0] == bs[0] && Live(bs)[1..] == Live(bs[1..]);
      assert bs[0].free ==> Live(bs) == Live(bs[1..]);
    }
  }

  // ----- runs -----

  datatype Op = Alloc(size: nat) | Dispose(ptr: nat)

  /** Callers free null or a pointer in use. */
  ghost predicate Legal(bs: seq<Block>, ops: seq<Op>)
    decreases |ops|
  {
    ops == [] ||
    (Legal(Step(bs, ops[0]), ops[1..]) && (ops[0].Dispose? ==> ops[0].ptr == 0 || ops[0].ptr in LivePtrs(bs)))
  }

  ghost function Step(bs: seq<Block>, op: Op): seq<Block> {
    match op
    case Alloc(size) => Malloc(bs, size).1
    case Dispose(ptr) => Free(bs, ptr)
  }

  ghost function Run(bs: seq<Block>, ops: seq<Op>): seq<Block>
    decreases |ops|
  {
    if ops == [] then bs else Run(Step(bs, ops[0]), ops[1..])
  }

  /** Every heap reachable from mm_init by legal calls tiles the heap with no two free neighbours,
      and its accounts balance. */
  lemma {:induction false} ReachableInv(bs: seq<Block>, ops: seq<Op>)
    requires HeapInv(bs) && Legal(bs, ops)
    ensures HeapInv(Run(bs, ops))
    ensures var r := Run(bs, ops);
      && |Live(r)| <= |r| && Used(r) == Sizes(Live(r)) + 12 * |Live(r)|
      && Used(r) + FreeBytes(r) + 12 * (|r| - |Live(r)|) == 0x10_0000
    decreases |ops|
  {
    if ops == [] {
      Accounting(bs, HEAP_START, HEAP_END);
    } else {
      match ops[0] {
        case Alloc(size) => MallocKeeps(bs, size);
        case Dispose(ptr) =>
          if ptr == 0 {
            NullIsNoBlock(bs, HEAP_START, HEAP_END);
          } else {
            FreePtrs(bs, ptr);
          }
      }
      ReachableInv(Step(bs, ops[0]), ops[1..]);
    }
  }

  lemma {:induction false} NullIsNoBlock(bs: seq<Block>, a: nat, e: nat)
    requires Tiles(bs, a, e)
    ensures BlockOf(bs, 0) == -1
    decreases |bs|
  {
    if bs != [] {
      NullIsNoBlock(bs[1..], bs[0].End(), e);
    }
  }
}
