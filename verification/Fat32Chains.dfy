/** Cluster chains in the allocation table: walking, freeing and allocating. */
module Fat32Chains {
  import opened Bytes
  import opened Fat32Layout

  /** The low 28 bits of a table word are the link; the top 4 bits belong to nobody. */
  function Link(w: word): nat {
    w % 0x1000_0000
  }

  function SetLink(w: word, v: nat): (r: word)
    ensures Link(r) == v % 0x1000_0000
    ensures r / 0x1000_0000 == w / 0x1000_0000
  {
    w - w % 0x1000_0000 + v % 0x1000_0000
  }

  /** A cluster number that the driver follows. */
  predicate IsCluster(c: nat) {
    2 <= c < END_OF_CHAIN
  }

  /** Every link is inside the table or ends its chain. */
  ghost predicate InRange(raw: seq<word>) {
    && |raw| <= END_OF_CHAIN
    && forall i :: 0 <= i < |raw| ==> Link(raw[i]) < |raw| || END_OF_CHAIN <= Link(raw[i])
  }

  ghost predicate TableIndex(raw: seq<word>, c: nat) {
    c < |raw| || END_OF_CHAIN <= c
  }

  ghost function UsedCount(raw: seq<word>): nat {
    if raw == [] then 0 else (if Link(raw[0]) != 0 then 1 else 0) + UsedCount(raw[1..])
  }

  lemma {:induction false} UsedCountUpdate(raw: seq<word>, c: nat, w: word)
    requires c < |raw|
    ensures UsedCount(raw[c := w]) ==
      UsedCount(raw) - (if Link(raw[c]) != 0 then 1 else 0) + (if Link(w) != 0 then 1 else 0)
  {
    if c == 0 {
      assert raw[c := w][1..] == raw[1..];
    } else {
      assert raw[c := w][1..] == raw[1..][c - 1 := w];
      UsedCountUpdate(raw[1..], c - 1, w);
    }
  }

  // ----- freeing -----

  /** What freeing from cluster `c` leaves: each visited entry loses its link, and the walk
      stops at a link that is no cluster. A cycle is cut by its own zeroed entry. */
  ghost function FreeWalk(raw: seq<word>, c: nat): (r: seq<word>)
    requires InRange(raw) && TableIndex(raw, c)
    ensures |r| == |raw| && InRange(r)
    decreases UsedCount(raw), IsCluster(c)
  {
    if !IsCluster(c) then raw else
      UsedCountUpdate(raw, c, SetLink(raw[c], 0));
      FreeWalk(raw[c := SetLink(raw[c], 0)], Link(raw[c]))
  }

  ghost function Zeroed(raw: seq<word>, s: set<nat>): (r: seq<word>)
    ensures |r| == |raw|
  {
    seq(|raw|, i requires 0 <= i < |raw| => if i in s then SetLink(raw[i], 0) else raw[i])
  }

  /** The clusters the walk visits. */
  ghost function Visited(raw: seq<word>, c: nat): (s: set<nat>)
    requires InRange(raw) && TableIndex(raw, c)
    decreases UsedCount(raw), IsCluster(c)
  {
    if !IsCluster(c) then {} else
      UsedCountUpdate(raw, c, SetLink(raw[c], 0));
      {c} + Visited(raw[c := SetLink(raw[c], 0)], Link(raw[c]))
  }

  /** `s` holds `c` and, with each member, the cluster it links to. */
  ghost predicate Closed(raw: seq<word>, c: nat, s: set<nat>) {
    && (IsCluster(c) ==> c in s)
    && forall x :: x in s && x < |raw| && IsCluster(Link(raw[x])) ==> Link(raw[x]) in s
  }

  /** On any in-range table, cyclic or cross-linked, freeing zeroes the clusters reachable
      from `c`, the least closed set, and touches nothing else. */
  lemma {:induction false} FreeWalkExact(raw: seq<word>, c: nat)
    requires InRange(raw) && TableIndex(raw, c)
    ensures FreeWalk(raw, c) == Zeroed(raw, Visited(raw, c))
    ensures Closed(raw, c, Visited(raw, c))
    ensures forall s :: Closed(raw, c, s) ==> Visited(raw, c) <= s
    decreases UsedCount(raw), IsCluster(c)
  {
    if !IsCluster(c) {
      assert Zeroed(raw, {}) == raw;
    } else {
      UsedCountUpdate(raw, c, SetLink(raw[c], 0));
      var next, cut := Link(raw[c]), raw[c := SetLink(raw[c], 0)];
      FreeWalkExact(cut, next);
      ZeroedStep(raw, c, Visited(cut, next));
      ClosedStep(raw, c, Visited(cut, next));
      forall s | Closed(raw, c, s)
        ensures Visited(raw, c) <= s
      {
        ClosedStep(raw, c, s);
      }
    }
  }

  lemma ZeroedStep(raw: seq<word>, c: nat, s: set<nat>)
    requires c < |raw|
    ensures Zeroed(raw[c := SetLink(raw[c], 0)], s) == Zeroed(raw, {c} + s)
  {
    var cut := raw[c := SetLink(raw[c], 0)];
    assert SetLink(cut[c], 0) == cut[c];
    forall i | 0 <= i < |raw| ensures Zeroed(cut, s)[i] == Zeroed(raw, {c} + s)[i] {}
  }

  /** Cutting the link of `c` leaves what is closed from `c` closed from the cluster it linked to, and
      the other way round once `c` is added. */
  lemma ClosedStep(raw: seq<word>, c: nat, s: set<nat>)
    requires IsCluster(c) && c < |raw|
    ensures var cut := raw[c := SetLink(raw[c], 0)];
      && (Closed(raw, c, s) ==> Closed(cut, Link(raw[c]), s))
      && (Closed(cut, Link(raw[c]), s) ==> Closed(raw, c, {c} + s))
  {
    var cut := raw[c := SetLink(raw[c], 0)];
    if Closed(raw, c, s) {
      forall x | x in s && x < |cut| && IsCluster(Link(cut[x]))
        ensures Link(cut[x]) in s
      {
        assert x != c;
      }
    }
    if Closed(cut, Link(raw[c]), s) {
      forall x | x in {c} + s && x < |raw| && IsCluster(Link(raw[x]))
        ensures Link(raw[x]) in {c} + s
      {
        assert x != c ==> raw[x] == cut[x];
      }
    }
  }

  // ----- chains -----

  /** `ch` lists the clusters from `c` to the end of its chain; each is in the table and in use. */
  ghost predicate IsChain(raw: seq<word>, c: nat, ch: seq<nat>)
    decreases |ch|
  {
    if ch == [] then !IsCluster(c)
    else ch[0] == c && 2 <= c < |raw| <= END_OF_CHAIN && Link(raw[c]) != 0 && IsChain(raw, Link(raw[c]), ch[1..])
  }

  ghost function Elems(ch: seq<nat>): set<nat> {
    set x | x in ch
  }

  lemma {:induction false} ChainUnique(raw: seq<word>, c: nat, ch: seq<nat>, dh: seq<nat>)
    requires IsChain(raw, c, ch) && IsChain(raw, c, dh)
    ensures ch == dh
    decreases |ch|
  {
    if ch != [] && dh != [] {
      ChainUnique(raw, Link(raw[c]), ch[1..], dh[1..]);
      assert ch == [c] + ch[1..] && dh == [c] + dh[1..];
    }
  }

  lemma {:induction false} ChainSuffix(raw: seq<word>, c: nat, ch: seq<nat>, i: nat)
    requires IsChain(raw, c, ch) && i < |ch|
    ensures IsChain(raw, ch[i], ch[i..])
    ensures 2 <= ch[i] < |raw| && Link(raw[ch[i]]) != 0
    ensures if i + 1 < |ch| then Link(raw[ch[i]]) == ch[i + 1] else !IsCluster(Link(raw[ch[i]]))
    decreases i
  {
    if i > 0 {
      ChainSuffix(raw, Link(raw[c]), ch[1..], i - 1);
      assert ch[1..][i - 1..] == ch[i..];
    } else {
      assert ch[0..] == ch;
    }
  }

  /** A chain, link by link: clusters of the table that are in use, each giving the low 28 bits of its
      word as the next one, and the last giving 0, 1 or something from 0x0FFFFFF8 up. */
  ghost predicate Linked(raw: seq<word>, c: nat, ch: seq<nat>) {
    && (forall i :: 0 <= i < |ch| ==> 2 <= ch[i] < |raw| && raw[ch[i]] % 0x1000_0000 != 0)
    && (forall i, j :: 0 <= i && j == i + 1 && j < |ch| && ch[i] < |raw| ==> raw[ch[i]] % 0x1000_0000 == ch[j])
    && (ch == [] ==> c < 2 || 0x0FFF_FFF8 <= c)
    && (ch != [] ==> ch[0] == c)
    && (ch != [] && ch[|ch| - 1] < |raw| ==>
      var last := raw[ch[|ch| - 1]] % 0x1000_0000; last < 2 || 0x0FFF_FFF8 <= last)
  }

  lemma {:induction false} ChainExact(raw: seq<word>, c: nat, ch: seq<nat>)
    requires |raw| <= 0x0FFF_FFF8
    ensures IsChain(raw, c, ch) <==> Linked(raw, c, ch)
    decreases |ch|
  {
    if ch != [] && 2 <= c < |raw| && ch[0] == c {
      var next := Link(raw[c]);
      ChainExact(raw, next, ch[1..]);
      if Linked(raw, next, ch[1..]) && next != 0 {
        LinkedCons(raw, c, ch);
      }
      if Linked(raw, c, ch) {
        LinkedTail(raw, c, ch);
      }
    }
  }

  lemma LinkedCons(raw: seq<word>, c: nat, ch: seq<nat>)
    requires ch != [] && ch[0] == c && 2 <= c < |raw| && Link(raw[c]) != 0 && Linked(raw, Link(raw[c]), ch[1..])
    ensures Linked(raw, c, ch)
  {
    forall i | 0 <= i < |ch|
      ensures 2 <= ch[i] < |raw| && raw[ch[i]] % 0x1000_0000 != 0
    {
      if i > 0 { assert ch[i] == ch[1..][i - 1]; }
    }
    forall i, j | 0 <= i && j == i + 1 && j < |ch|
      ensures raw[ch[i]] % 0x1000_0000 == ch[j]
    {
      assert ch[j] == ch[1..][i];
      if i > 0 { assert ch[i] == ch[1..][i - 1]; }
    }
    if |ch| > 1 {
      assert ch[|ch| - 1] == ch[1..][|ch| - 2];
    }
  }

  lemma LinkedTail(raw: seq<word>, c: nat, ch: seq<nat>)
    requires ch != [] && Linked(raw, c, ch)
    ensures 2 <= c < |raw| && Linked(raw, Link(raw[c]), ch[1..])
  {
    var rest := ch[1..];
    assert forall i :: 0 <= i < |rest| ==> rest[i] == ch[i + 1];
    forall i, j | 0 <= i && j == i + 1 && j < |rest|
      ensures raw[rest[i]] % 0x1000_0000 == rest[j]
    {
      assert rest[i] == ch[j] && rest[j] == ch[j + 1];
    }
    if rest != [] {
      assert rest[|rest| - 1] == ch[|ch| - 1];
    }
  }

  /** A chain that ends visits no cluster twice. */
  lemma ChainAcyclic(raw: seq<word>, c: nat, ch: seq<nat>, i: nat, j: nat)
    requires IsChain(raw, c, ch) && i < j < |ch|
    ensures ch[i] != ch[j]
  {
    ChainSuffix(raw, c, ch, i);
    ChainSuffix(raw, c, ch, j);
    if ch[i] == ch[j] {
      ChainUnique(raw, ch[i], ch[i..], ch[j..]);
    }
  }

  /** A chain depends on the entries of its own clusters only. */
  lemma {:induction false} ChainFrame(raw: seq<word>, r: seq<word>, c: nat, ch: seq<nat>)
    requires IsChain(raw, c, ch) && |r| == |raw|
    requires forall x :: x in ch && x < |raw| ==> Link(r[x]) == Link(raw[x])
    ensures IsChain(r, c, ch)
    decreases |ch|
  {
    if ch != [] {
      assert c in ch;
      ChainFrame(raw, r, Link(raw[c]), ch[1..]);
    }
  }

  lemma {:induction false} ChainInside(raw: seq<word>, c: nat, ch: seq<nat>, s: set<nat>)
    requires IsChain(raw, c, ch) && Closed(raw, c, s)
    ensures Elems(ch) <= s
    decreases |ch|
  {
    if ch != [] {
      ChainInside(raw, Link(raw[c]), ch[1..], s);
      assert forall x :: x in ch ==> x == c || x in ch[1..];
      assert forall x :: x in ch[1..] ==> x in Elems(ch[1..]);
    }
  }

  lemma ChainClosed(raw: seq<word>, c: nat, ch: seq<nat>)
    requires IsChain(raw, c, ch)
    ensures Closed(raw, c, Elems(ch))
  {
    forall x | x in ch && x < |raw| && IsCluster(Link(raw[x]))
      ensures Link(raw[x]) in ch
    {
      var i :| 0 <= i < |ch| && ch[i] == x;
      ChainSuffix(raw, c, ch, i);
    }
  }

  /** Freeing a proper chain frees exactly that chain's clusters. */
  lemma FreeChainExact(raw: seq<word>, c: nat, ch: seq<nat>)
    requires InRange(raw) && TableIndex(raw, c) && IsChain(raw, c, ch)
    ensures FreeWalk(raw, c) == Zeroed(raw, Elems(ch))
  {
    FreeWalkExact(raw, c);
    ChainClosed(raw, c, ch);
    ChainInside(raw, c, ch, Visited(raw, c));
    assert Visited(raw, c) == Elems(ch);
  }

  // ----- allocating -----

  /** The free cluster a scan from `i` up takes, or 0. */
  function FirstFree(raw: seq<word>, i: nat): (c: nat)
    ensures c == 0 || (2 <= c < |raw| && Link(raw[c]) == 0)
    decreases |raw| - i
  {
    if i >= |raw| then 0
    else if 2 <= i && Link(raw[i]) == 0 then i
    else FirstFree(raw, i + 1)
  }

  /** It is the least free cluster, and 0 means there is none. */
  lemma {:induction false} FirstFreeExact(raw: seq<word>, i: nat)
    ensures var c := FirstFree(raw, i);
      if c == 0 then forall j :: i <= j < |raw| && 2 <= j ==> Link(raw[j]) != 0
      else i <= c < |raw| && 2 <= c && Link(raw[c]) == 0 && forall j :: i <= j < c && 2 <= j ==> Link(raw[j]) != 0
    decreases |raw| - i
  {
    if i < |raw| && !(2 <= i && Link(raw[i]) == 0) {
      FirstFreeExact(raw, i + 1);
    }
  }

  /** A cluster taken from the table and then freed leaves the table as it was. */
  lemma AllocThenFree(raw: seq<word>, c: nat)
    requires InRange(raw) && 2 <= c < |raw| && Link(raw[c]) == 0
    ensures InRange(raw[c := SetLink(raw[c], 0x0FFF_FFFF)])
    ensures IsChain(raw[c := SetLink(raw[c], 0x0FFF_FFFF)], c, [c])
    ensures FreeWalk(raw[c := SetLink(raw[c], 0x0FFF_FFFF)], c) == raw
  {
    var taken := raw[c := SetLink(raw[c], 0x0FFF_FFFF)];
    assert [c][1..] == [];
    assert IsChain(taken, Link(taken[c]), []);
    FreeChainExact(taken, c, [c]);
    assert Zeroed(taken, Elems([c])) == raw;
  }
}
