/** The root directory as 32-byte slots, and 8.3 names. */
module Fat32Directory {
  import opened Bytes

  // ----- entries -----

  type Entry = e: seq<byte> | |e| == 32 witness seq(32, _ => 0)
  type FatName = n: seq<byte> | |n| == 11 witness seq(11, _ => 0)

  const DELETED: byte := 0xE5
  const SPACE: byte := 0x20
  const DOT: byte := 0x2E

  function NameOf(e: Entry): FatName {
    e[..11]
  }

  /** A slot holding a file: used, not deleted, and not a long-name fragment. */
  predicate Live(e: Entry) {
    e[0] != 0 && e[0] != DELETED && e[11] != 0x0F
  }

  function FirstCluster(e: Entry): (c: nat)
    ensures c < 0x1_0000_0000
  {
    0x1_0000 * GetHalf(e, 20) + GetHalf(e, 26)
  }

  function FileSize(e: Entry): word {
    GetWord(e, 28)
  }

  /** The entry the driver writes: archive attribute, no times. */
  function NewEntry(name: FatName, cluster: nat, size: word): (e: Entry)
    requires cluster < 0x1_0000_0000
  {
    name + [0x20, 0, 0, 0, 0, 0, 0, 0, 0] + HalfBytes(cluster / 0x1_0000) + [0, 0, 0, 0] +
    HalfBytes(cluster % 0x1_0000) + WordBytes(size)
  }

  /** Reading back a new entry gives its name, first cluster and size. */
  lemma NewEntryReads(name: FatName, cluster: nat, size: word)
    requires cluster < 0x1_0000_0000
    ensures NameOf(NewEntry(name, cluster, size)) == name
    ensures FirstCluster(NewEntry(name, cluster, size)) == cluster
    ensures FileSize(NewEntry(name, cluster, size)) == size
    ensures Live(NewEntry(name, cluster, size)) <==> name[0] != 0 && name[0] != DELETED
  {
    var e := NewEntry(name, cluster, size);
    WordSplit(size);
    assert e[28] == WordBytes(size)[0] && e[29] == WordBytes(size)[1];
    assert e[30] == WordBytes(size)[2] && e[31] == WordBytes(size)[3];
  }

  /** The entry byte by byte: the name, attribute 0x20, no times, and the numbers low byte first. */
  ghost predicate Spells(e: Entry, name: FatName, cluster: nat, size: nat) {
    && e[..11] == name && e[11] == 0x20
    && (forall i :: 12 <= i < 20 || 22 <= i < 26 ==> e[i] == 0)
    && e[26] as int + 0x100 * e[27] as int + 0x1_0000 * e[20] as int + 0x100_0000 * e[21] as int == cluster
    && e[28] as int + 0x100 * e[29] as int + 0x1_0000 * e[30] as int + 0x100_0000 * e[31] as int == size
  }

  lemma NewEntryBytes(name: FatName, cluster: nat, size: word)
    requires cluster < 0x1_0000_0000
    ensures Spells(NewEntry(name, cluster, size), name, cluster, size)
  {
    var e := NewEntry(name, cluster, size);
    assert e[12..20] == [0, 0, 0, 0, 0, 0, 0, 0] && e[22..26] == [0, 0, 0, 0];
    forall i | 12 <= i < 20 ensures e[i] == 0 { assert e[i] == e[12..20][i - 12]; }
    forall i | 22 <= i < 26 ensures e[i] == 0 { assert e[i] == e[22..26][i - 22]; }
    assert e[20..22] == HalfBytes(cluster / 0x1_0000) && e[26..28] == HalfBytes(cluster % 0x1_0000);
    assert e[20] == e[20..22][0] && e[21] == e[20..22][1] && e[26] == e[26..28][0] && e[27] == e[26..28][1];
    assert e[28..32] == WordBytes(size);
    assert e[28] == e[28..32][0] && e[29] == e[28..32][1] && e[30] == e[28..32][2] && e[31] == e[28..32][3];
    WordSplit(size);
  }

  // ----- slots -----

  function Slots(dir: seq<byte>): nat {
    |dir| / 32
  }

  function Slot(dir: seq<byte>, k: nat): Entry
    requires k < Slots(dir)
  {
    dir[32 * k..32 * k + 32]
  }

  function SetSlot(dir: seq<byte>, k: nat, e: Entry): (r: seq<byte>)
    requires k < Slots(dir)
    ensures |r| == |dir|
  {
    dir[..32 * k] + e + dir[32 * k + 32..]
  }

  lemma SetSlotReads(dir: seq<byte>, k: nat, e: Entry)
    requires k < Slots(dir)
    ensures forall j :: 0 <= j < Slots(dir) ==> Slot(SetSlot(dir, k, e), j) == if j == k then e else Slot(dir, j)
  {
    var r := SetSlot(dir, k, e);
    forall j | 0 <= j < Slots(dir) && j != k
      ensures Slot(r, j) == Slot(dir, j)
    {
      if j < k {
        assert 32 * j + 32 <= 32 * k && r[..32 * k] == dir[..32 * k];
        SliceOfPrefix(r, dir, 32 * k, 32 * j);
      } else {
        assert 32 * k + 32 <= 32 * j && r[32 * k + 32..] == dir[32 * k + 32..];
        SliceOfRest(r, dir, 32 * k + 32, 32 * j);
      }
    }
    assert Slot(r, k) == e;
  }

  lemma SliceOfPrefix(r: seq<byte>, s: seq<byte>, m: nat, at: nat)
    requires at + 32 <= m <= |r| && m <= |s| && r[..m] == s[..m]
    ensures r[at..at + 32] == s[at..at + 32]
  {
    assert r[at..at + 32] == r[..m][at..at + 32] && s[at..at + 32] == s[..m][at..at + 32];
  }

  lemma SliceOfRest(r: seq<byte>, s: seq<byte>, m: nat, at: nat)
    requires m <= at && at + 32 <= |r| == |s| && r[m..] == s[m..]
    ensures r[at..at + 32] == s[at..at + 32]
  {
    assert r[at..at + 32] == r[m..][at - m..at - m + 32] && s[at..at + 32] == s[m..][at - m..at - m + 32];
  }

  /** From the first never-used slot on, every slot is never used. */
  ghost predicate ZeroTail(dir: seq<byte>) {
    forall j, k :: 0 <= j < k < Slots(dir) && Slot(dir, j)[0] == 0 ==> Slot(dir, k)[0] == 0
  }

  /** The slot a search for `name` from slot `k` reports, or -1. */
  function FindFrom(dir: seq<byte>, name: FatName, k: nat): int
    decreases Slots(dir) - k
  {
    if k >= Slots(dir) || Slot(dir, k)[0] == 0 then -1
    else if Live(Slot(dir, k)) && NameOf(Slot(dir, k)) == name then k
    else FindFrom(dir, name, k + 1)
  }

  /** The reusable slot the same search reports, or -1. */
  function FreeFrom(dir: seq<byte>, name: FatName, k: nat): int
    decreases Slots(dir) - k
  {
    if k >= Slots(dir) then -1
    else if Slot(dir, k)[0] == 0 || Slot(dir, k)[0] == DELETED then k
    else if Live(Slot(dir, k)) && NameOf(Slot(dir, k)) == name then -1
    else FreeFrom(dir, name, k + 1)
  }

  /** A search that succeeds names the first live slot with that name; one that fails means there is none. */
  lemma {:induction false} FindExact(dir: seq<byte>, name: FatName, k: nat)
    requires ZeroTail(dir)
    ensures var r := FindFrom(dir, name, k);
      if r >= 0
      then k <= r < Slots(dir) && Live(Slot(dir, r)) && NameOf(Slot(dir, r)) == name &&
           forall j :: k <= j < r && Live(Slot(dir, j)) ==> NameOf(Slot(dir, j)) != name
      else r == -1 && forall j :: k <= j < Slots(dir) && Live(Slot(dir, j)) ==> NameOf(Slot(dir, j)) != name
    decreases Slots(dir) - k
  {
    if k < Slots(dir) && Slot(dir, k)[0] != 0 {
      FindExact(dir, name, k + 1);
    }
  }

  /** Slot `k` as the bytes of the directory: neither unused nor deleted nor a long-name fragment,
      and starting with the name. */
  ghost predicate Matches(dir: seq<byte>, k: nat, name: FatName)
    requires 32 * k + 32 <= |dir|
  {
    && dir[32 * k] != 0 && dir[32 * k] != 0xE5 && dir[32 * k + 11] != 0x0F
    && forall i :: 0 <= i < 11 ==> dir[32 * k + i] == name[i]
  }

  lemma MatchesIsLive(dir: seq<byte>, k: nat, name: FatName)
    requires 32 * k + 32 <= |dir|
    ensures Matches(dir, k, name) <==> Live(Slot(dir, k)) && NameOf(Slot(dir, k)) == name
  {
    var e := Slot(dir, k);
    assert forall i :: 0 <= i < 32 ==> e[i] == dir[32 * k + i];
    assert NameOf(e) == name <==> forall i :: 0 <= i < 11 ==> e[i] == name[i];
  }

  /** In bytes: the search reports a slot exactly if some slot matches, and then the first such slot. */
  lemma SearchExact(dir: seq<byte>, name: FatName)
    requires ZeroTail(dir)
    ensures var r := FindFrom(dir, name, 0);
      && (r >= 0 <==> exists k: nat :: 32 * k + 32 <= |dir| && Matches(dir, k, name))
      && (r >= 0 ==> 32 * r + 32 <= |dir| && Matches(dir, r, name))
      && (forall k: nat :: 32 * k + 32 <= |dir| && Matches(dir, k, name) ==> r <= k)
  {
    FindExact(dir, name, 0);
    var r := FindFrom(dir, name, 0);
    if r >= 0 {
      MatchesIsLive(dir, r, name);
    }
    forall k: nat | 32 * k + 32 <= |dir| && Matches(dir, k, name)
      ensures 0 <= r <= k
    {
      MatchesIsLive(dir, k, name);
    }
  }

  /** After a failed search the reported slot is the first unused one, and -1 means the directory is full. */
  lemma {:induction false} FreeExact(dir: seq<byte>, name: FatName, k: nat)
    requires FindFrom(dir, name, k) < 0
    ensures var r := FreeFrom(dir, name, k);
      if r >= 0
      then k <= r < Slots(dir) && Slot(dir, r)[0] in {0, 0xE5} &&
           forall j :: k <= j < r ==> Slot(dir, j)[0] !in {0, 0xE5}
      else r == -1 && forall j :: k <= j < Slots(dir) ==> Slot(dir, j)[0] !in {0, 0xE5}
    decreases Slots(dir) - k
  {
    if k < Slots(dir) && Slot(dir, k)[0] != 0 && Slot(dir, k)[0] != DELETED {
      FreeExact(dir, name, k + 1);
    }
  }

  // ----- names -----

  /** Character `i` of a C string; the terminating NUL is everything past the end. */
  function CharAt(s: seq<byte>, i: nat): byte {
    if i < |s| then s[i] else 0
  }

  function Upper(c: byte): byte {
    if 0x61 <= c <= 0x7A then c - 32 else c
  }

  /** Where the base of a name stops, scanning from `i`. */
  function BaseEnd(s: seq<byte>, i: nat): (b: nat)
    requires i <= 8
    ensures i <= b <= 8
    ensures forall j :: i <= j < b ==> CharAt(s, j) != 0 && CharAt(s, j) != DOT
    ensures b < 8 ==> CharAt(s, b) == 0 || CharAt(s, b) == DOT
    decreases |s| + 8 - i
  {
    if i < 8 && CharAt(s, i) != 0 && CharAt(s, i) != DOT then BaseEnd(s, i + 1) else i
  }

  /** How many extension characters follow position `p`, at most `room`. */
  function ExtLen(s: seq<byte>, p: nat, room: nat): (n: nat)
    ensures n <= room
    ensures forall j :: p <= j < p + n ==> CharAt(s, j) != 0
    ensures n < room ==> CharAt(s, p + n) == 0
    decreases |s| + room
  {
    if room == 0 || CharAt(s, p) == 0 then 0 else 1 + ExtLen(s, p + 1, room - 1)
  }

  /** Character `i` of the base, and of the extension. */
  function BaseChar(s: seq<byte>, i: nat): byte {
    if i < BaseEnd(s, 0) then Upper(CharAt(s, i)) else SPACE
  }

  function ExtChar(s: seq<byte>, i: nat): byte {
    var b := BaseEnd(s, 0);
    if CharAt(s, b) == DOT && i < ExtLen(s, b + 1, 3) then Upper(CharAt(s, b + 1 + i)) else SPACE
  }

  function FatBase(s: seq<byte>): (r: seq<byte>)
    ensures |r| == 8 && r[0] != 0
  {
    seq(8, i requires 0 <= i < 8 => BaseChar(s, i))
  }

  function FatExt(s: seq<byte>): (r: seq<byte>)
    ensures |r| == 3
  {
    seq(3, i requires 0 <= i < 3 => ExtChar(s, i))
  }

  lemma BaseIs(s: seq<byte>, r: seq<byte>, b: nat)
    requires b == BaseEnd(s, 0) && |r| == 8
    requires forall i :: 0 <= i < 8 ==> r[i] == if i < b then Upper(CharAt(s, i)) else SPACE
    ensures r == FatBase(s)
  {}

  lemma ExtIs(s: seq<byte>, r: seq<byte>, b: nat, e: nat)
    requires b == BaseEnd(s, 0) && |r| == 3
    requires e == if CharAt(s, b) == DOT then ExtLen(s, b + 1, 3) else 0
    requires forall i :: 0 <= i < 3 ==> r[i] == if i < e then Upper(CharAt(s, b + 1 + i)) else SPACE
    ensures r == FatExt(s)
  {}

  /** The padded, upper-cased 8.3 form of a name. */
  function Fat83(s: seq<byte>): (n: FatName)
    ensures n[0] != 0
  {
    FatBase(s) + FatExt(s)
  }

  predicate LowerCase(c: byte) {
    0x61 <= c <= 0x7A
  }

  /** The same byte, or the same letter in the other case. */
  predicate SameLetter(c: byte, d: byte) {
    c == d || (0x61 <= c <= 0x7A && d == c - 32) || (0x61 <= d <= 0x7A && c == d - 32)
  }

  /** The 8.3 form does not depend on the case of the letters typed, and has no small letter. */
  lemma CaseInsensitive(s: seq<byte>, t: seq<byte>)
    requires |s| == |t| && forall i :: 0 <= i < |s| ==> SameLetter(s[i], t[i])
    ensures Fat83(s) == Fat83(t)
    ensures forall i :: 0 <= i < 11 ==> !(0x61 <= Fat83(s)[i] <= 0x7A)
  {
    assert forall i: nat :: SameLetter(CharAt(s, i), CharAt(t, i));
    SameScan(s, t, 0);
    SameExt(s, t, BaseEnd(s, 0) + 1, 3);
    assert FatBase(s) == FatBase(t);
    assert FatExt(s) == FatExt(t);
  }

  lemma {:induction false} SameScan(s: seq<byte>, t: seq<byte>, i: nat)
    requires i <= 8 && forall j: nat :: SameLetter(CharAt(s, j), CharAt(t, j))
    ensures BaseEnd(s, i) == BaseEnd(t, i)
    decreases 8 - i
  {
    assert SameLetter(CharAt(s, i), CharAt(t, i));
    if i < 8 {
      SameScan(s, t, i + 1);
    }
  }

  lemma {:induction false} SameExt(s: seq<byte>, t: seq<byte>, p: nat, room: nat)
    requires forall j: nat :: SameLetter(CharAt(s, j), CharAt(t, j))
    ensures ExtLen(s, p, room) == ExtLen(t, p, room)
    decreases room
  {
    assert SameLetter(CharAt(s, p), CharAt(t, p));
    if room > 0 {
      SameExt(s, t, p + 1, room - 1);
    }
  }

  /** The field holds `part`, cut or padded with spaces to its width, small letters raised. */
  ghost predicate FieldHolds(field: seq<byte>, part: seq<byte>) {
    forall i :: 0 <= i < |field| ==>
      field[i] == if i >= |part| then 0x20 else if 0x61 <= part[i] <= 0x7A then part[i] - 32 else part[i]
  }

  /** A name of a base of at most 8 characters, a dot and an extension becomes the two, raised and
      padded, the extension cut to 3 characters. */
  lemma DottedName(base: seq<byte>, ext: seq<byte>)
    requires |base| <= 8 && 0 !in base && 0x2E !in base && 0 !in ext
    ensures var n := Fat83(base + [0x2E] + ext);
      FieldHolds(n[..8], base) && FieldHolds(n[8..], ext)
  {
    var s, b := base + [0x2E] + ext, |base|;
    assert forall i: nat :: i < b ==> CharAt(s, i) == base[i] && base[i] in base;
    assert CharAt(s, b) == 0x2E;
    BaseEndIs(s, 0, b);
    assert Fat83(s)[..8] == FatBase(s) && Fat83(s)[8..] == FatExt(s);
    assert FieldHolds(FatBase(s), base);
    DottedExt(base, ext);
  }

  lemma DottedExt(base: seq<byte>, ext: seq<byte>)
    requires 0 !in ext
    requires var s := base + [0x2E] + ext; BaseEnd(s, 0) == |base|
    ensures FieldHolds(FatExt(base + [0x2E] + ext), ext)
  {
    var s, b := base + [0x2E] + ext, |base|;
    forall i: nat | i < |ext|
      ensures CharAt(s, b + 1 + i) == ext[i] != 0
    {
      assert ext[i] in ext;
    }
    var e := if |ext| < 3 then |ext| else 3;
    assert e < 3 ==> CharAt(s, b + 1 + e) == 0;
    assert forall j: nat :: b + 1 <= j < b + 1 + e ==> CharAt(s, j) == ext[j - b - 1];
    ExtLenIs(s, b + 1, 3, e);
  }

  /** Without a dot among the first 9 characters the base is the first 8 characters, and the
      extension is blank, also when the name goes on. */
  lemma UndottedName(s: seq<byte>)
    requires 0 !in s && forall i :: 0 <= i < |s| && i <= 8 ==> s[i] != 0x2E
    ensures FieldHolds(Fat83(s)[..8], s) && Fat83(s)[8..] == [0x20, 0x20, 0x20]
  {
    var b := if |s| <= 8 then |s| else 8;
    forall i: nat | i < b
      ensures CharAt(s, i) != 0 && CharAt(s, i) != 0x2E
    {
      assert s[i] in s;
    }
    BaseEndIs(s, 0, b);
    assert Fat83(s)[..8] == FatBase(s) && Fat83(s)[8..] == FatExt(s);
  }

  lemma {:induction false} BaseEndIs(s: seq<byte>, i: nat, b: nat)
    requires i <= b <= 8 && forall j :: i <= j < b ==> CharAt(s, j) != 0 && CharAt(s, j) != DOT
    requires b < 8 ==> CharAt(s, b) == 0 || CharAt(s, b) == DOT
    ensures BaseEnd(s, i) == b
    decreases b - i
  {
    if i < b {
      BaseEndIs(s, i + 1, b);
    }
  }

  /** The characters of `n` before its first space. */
  function UntilSpace(n: seq<byte>): (r: seq<byte>)
    ensures r <= n && SPACE !in r
    ensures |r| < |n| ==> n[|r|] == SPACE
  {
    if n == [] || n[0] == SPACE then [] else [n[0]] + UntilSpace(n[1..])
  }

  /** How the directory listing prints a stored name. */
  function Printed(n: FatName): seq<byte> {
    UntilSpace(n[..8]) + if n[8] == SPACE then [] else [DOT] + UntilSpace(n[8..])
  }

  /** Spaces only as padding, and nothing that typing the name back would change. */
  ghost predicate Padded(n: seq<byte>) {
    forall i, j :: 0 <= i < j < |n| && n[i] == SPACE ==> n[j] == SPACE
  }

  ghost predicate Canonical(n: FatName) {
    && Padded(n[..8])
    && Padded(n[8..])
    && (forall i :: 0 <= i < 11 ==> n[i] != 0 && !LowerCase(n[i]))
    && (forall i :: 0 <= i < 8 ==> n[i] != 0x2E)
  }

  /** Nothing is printed but the bytes of the name, a dot before the extension, and no padding. */
  lemma PrintedChars(n: FatName)
    ensures var s, u, x := Printed(n), UntilSpace(n[..8]), UntilSpace(n[8..]);
      && (forall i: nat :: i < |u| ==> CharAt(s, i) == u[i] == n[i])
      && CharAt(s, |u|) == (if n[8] == SPACE then 0 else DOT)
      && (n[8] != SPACE ==> forall i: nat :: |u| < i <= |u| + |x| ==> CharAt(s, i) == n[i + 7 - |u|] != SPACE)
      && (n[8] != SPACE ==> CharAt(s, |u| + 1 + |x|) == 0)
  {
    var s, u, x := Printed(n), UntilSpace(n[..8]), UntilSpace(n[8..]);
    forall i: nat | i < |u|
      ensures CharAt(s, i) == u[i] == n[i]
    {
      assert u[i] == n[..8][i];
    }
    if n[8] != SPACE {
      PrintedExt(n);
    }
  }

  lemma PrintedExt(n: FatName)
    requires n[8] != SPACE
    ensures var s, u, x := Printed(n), UntilSpace(n[..8]), UntilSpace(n[8..]);
      && (forall i: nat :: |u| < i <= |u| + |x| ==> CharAt(s, i) == n[i + 7 - |u|] != SPACE)
      && CharAt(s, |u| + 1 + |x|) == 0
  {
    var s, u, x := Printed(n), UntilSpace(n[..8]), UntilSpace(n[8..]);
    assert s == u + [DOT] + x;
    forall i: nat | |u| < i <= |u| + |x|
      ensures CharAt(s, i) == n[i + 7 - |u|] != SPACE
    {
      assert s[i] == x[i - |u| - 1] == n[8..][i - |u| - 1];
      assert x[i - |u| - 1] in x;
    }
  }

  lemma CanonicalBase(n: FatName)
    requires Canonical(n)
    ensures BaseEnd(Printed(n), 0) == |UntilSpace(n[..8])|
    ensures FatBase(Printed(n)) == n[..8]
  {
    PrintedChars(n);
    var u := UntilSpace(n[..8]);
    forall i | |u| <= i < 8
      ensures n[..8][i] == SPACE
    {
      assert n[..8][|u|] == SPACE;
    }
  }

  lemma {:induction false} ExtLenIs(s: seq<byte>, p: nat, room: nat, n: nat)
    requires n <= room
    requires forall j :: p <= j < p + n ==> CharAt(s, j) != 0
    requires n < room ==> CharAt(s, p + n) == 0
    ensures ExtLen(s, p, room) == n
    decreases room
  {
    if n > 0 {
      ExtLenIs(s, p + 1, room - 1, n - 1);
    }
  }

  lemma CanonicalExt(n: FatName)
    requires Canonical(n)
    ensures FatExt(Printed(n)) == n[8..]
  {
    PrintedChars(n);
    CanonicalBase(n);
    var s, b, x := Printed(n), |UntilSpace(n[..8])|, UntilSpace(n[8..]);
    if n[8] == SPACE {
      assert n[8..][0] == SPACE;
      assert forall i :: 0 <= i < 3 ==> n[8..][i] == SPACE;
    } else {
      ExtLenIs(s, b + 1, 3, |x|);
      forall i: nat | i < 3
        ensures ExtChar(s, i) == n[8..][i]
      {
        if i < |x| {
          assert CharAt(s, b + 1 + i) == n[i + 8];
        } else {
          assert n[8..][|x|] == SPACE;
        }
      }
    }
  }

  lemma BaseCanonical(n: FatName)
    requires FatBase(Printed(n)) == n[..8]
    ensures BaseEnd(Printed(n), 0) == |UntilSpace(n[..8])| && Padded(n[..8])
    ensures forall i: nat :: i < 8 ==> n[i] != 0 && !LowerCase(n[i]) && n[i] != DOT
  {
    PrintedChars(n);
    var s, b := Printed(n), BaseEnd(Printed(n), 0);
    forall i: nat | i < 8
      ensures n[i] == BaseChar(s, i) && n[i] != DOT
    {
      assert n[i] == n[..8][i] == FatBase(s)[i];
    }
  }

  lemma ExtCanonical(n: FatName)
    requires FatExt(Printed(n)) == n[8..] && BaseEnd(Printed(n), 0) == |UntilSpace(n[..8])|
    ensures Padded(n[8..])
    ensures forall i: nat :: 8 <= i < 11 ==> n[i] != 0 && !LowerCase(n[i])
  {
    PrintedChars(n);
    var s, b := Printed(n), BaseEnd(Printed(n), 0);
    forall i: nat | 8 <= i < 11
      ensures n[i] == ExtChar(s, i - 8)
    {
      assert n[i] == n[8..][i - 8] == FatExt(s)[i - 8];
    }
    var e := if CharAt(s, b) == DOT then ExtLen(s, b + 1, 3) else 0;
    forall i: nat | i < 3
      ensures n[8..][i] == SPACE <==> e <= i
    {
      assert n[8..][i] == ExtChar(s, i);
    }
  }

  /** Typing a listed name back yields the stored name exactly when the stored name is canonical. */
  lemma NameRoundTrip(n: FatName)
    ensures Fat83(Printed(n)) == n <==> Canonical(n)
  {
    assert n == n[..8] + n[8..];
    if Canonical(n) {
      CanonicalBase(n);
      CanonicalExt(n);
    } else if Fat83(Printed(n)) == n {
      assert n[..8] == FatBase(Printed(n)) && n[8..] == FatExt(Printed(n));
      BaseCanonical(n);
      ExtCanonical(n);
    }
  }
}
