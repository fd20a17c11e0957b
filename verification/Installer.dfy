/** The installer: a conversation that may end in copying one drive onto another. */
module Installer {
  import opened Bytes

  type Sector = seq<byte>

  const INSTALL_SECTOR_COUNT := 53248
  const SOURCE_DRIVE: byte := 0
  const NO_DRIVE: byte := 0xFF

  /** How a copy would go: where memory or a drive first fails. */
  datatype Fate = NoMemory | ReadFails(lba: nat) | WriteFails(lba: nat) | Works

  datatype Event = Start(primary: bool, slave: bool) | Typed(c: char, fate: Fate)

  datatype Machine = Machine(active: bool, state: nat, found: seq<byte>, target: byte, disk0: seq<Sector>, disk1: seq<Sector>)

  ghost predicate Sized(m: Machine) {
    |m.disk0| >= INSTALL_SECTOR_COUNT && |m.disk1| >= INSTALL_SECTOR_COUNT
  }

  /** How many sectors a copy gets through. */
  function Progress(f: Fate): (n: nat)
    ensures n <= INSTALL_SECTOR_COUNT
  {
    match f
    case NoMemory => 0
    case Works => INSTALL_SECTOR_COUNT
    case ReadFails(k) => if k < INSTALL_SECTOR_COUNT then k else INSTALL_SECTOR_COUNT
    case WriteFails(k) => if k < INSTALL_SECTOR_COUNT then k else INSTALL_SECTOR_COUNT
  }

  /** `to` with its first `n` sectors replaced. */
  function Copied(to: seq<Sector>, from: seq<Sector>, n: nat): (r: seq<Sector>)
    requires n <= |to| && n <= |from|
    ensures |r| == |to|
  {
    from[..n] + to[n..]
  }

  lemma CopiedNext(to: seq<Sector>, from: seq<Sector>, n: nat)
    requires n < |to| && n < |from|
    ensures Copied(to, from, n)[n := from[n]] == Copied(to, from, n + 1)
  {}

  function Detected(primary: bool, slave: bool): seq<byte> {
    (if primary then [0] else []) + (if slave then [1] else [])
  }

  /** Copies drive 0 onto whatever drive is the target. */
  function Install(m: Machine, f: Fate): (r: Machine)
    requires Sized(m)
    ensures Sized(r)
  {
    if m.target == 0 then m.(disk0 := Copied(m.disk0, m.disk0, Progress(f)))
    else if m.target == 1 then m.(disk1 := Copied(m.disk1, m.disk0, Progress(f)))
    else m
  }

  function Step(m: Machine, e: Event): (r: Machine)
    requires Sized(m)
    ensures Sized(r)
  {
    match e
    case Start(p, s) =>
      m.(active := |Detected(p, s)| == 2, state := 0, found := Detected(p, s), target := NO_DRIVE)
    case Typed(c, f) =>
      if !m.active then m
      else if m.state == 0 then
        if c < '0' || c > '1' || c == '0' || 1 !in m.found then m else m.(target := 1, state := 1)
      else if m.state == 1 then
        if c == 'y' || c == 'Y' then Install(m, f).(state := 3, active := false) else m.(active := false)
      else m
  }

  function Run(m: Machine, es: seq<Event>): (r: Machine)
    requires Sized(m)
    ensures Sized(r)
  {
    if |es| == 0 then m else Step(Run(m, es[..|es| - 1]), es[|es| - 1])
  }

  // ----- the history of a conversation -----

  /** The last start found both drives, and the target drive's number has not been typed since. */
  ghost predicate Choosing(es: seq<Event>) {
    exists i :: 0 <= i < |es| && es[i] == Start(true, true) && NotChosenSince(es, i)
  }

  ghost predicate NotChosenSince(es: seq<Event>, i: int) {
    forall j :: i < j < |es| && j >= 0 ==> es[j].Typed? && es[j].c != '1'
  }

  /** The drive number has just been typed. */
  ghost predicate Chosen(es: seq<Event>) {
    |es| > 0 && es[|es| - 1].Typed? && es[|es| - 1].c == '1' && Choosing(es[..|es| - 1])
  }

  /** Right after the drive number, the copy was confirmed. */
  ghost predicate Confirmed(es: seq<Event>) {
    |es| > 0 && es[|es| - 1].Typed? && (es[|es| - 1].c == 'y' || es[|es| - 1].c == 'Y') && Chosen(es[..|es| - 1])
  }

  ghost predicate Idle(m: Machine) {
    !m.active && Sized(m)
  }

  /** The machine's state says exactly where the conversation stands. */
  lemma {:induction false} StateIsHistory(m: Machine, es: seq<Event>)
    requires Idle(m)
    ensures var r := Run(m, es);
      && (r.active && r.state == 0 <==> Choosing(es))
      && (r.active && r.state == 1 <==> Chosen(es))
      && (r.active ==> r.found == [0, 1] && r.state <= 1)
      && (r.active && r.state == 1 ==> r.target == 1)
    decreases |es|
  {
    if |es| > 0 {
      var n := |es| - 1;
      StateIsHistory(m, es[..n]);
      ChoosingStep(es);
      if |es| > 1 && Chosen(es[..n]) {
        NotBoth(es[..n]);
      }
    }
  }

  /** One more event keeps or starts the choice. */
  lemma ChoosingStep(es: seq<Event>)
    requires |es| > 0
    ensures var last := es[|es| - 1];
      Choosing(es) <==> last == Start(true, true) || (last.Typed? && last.c != '1' && Choosing(es[..|es| - 1]))
  {
    var n := |es| - 1;
    if Choosing(es) && es[n] != Start(true, true) {
      var i :| 0 <= i < |es| && es[i] == Start(true, true) && NotChosenSince(es, i);
      assert es[..n][i] == Start(true, true) && NotChosenSince(es[..n], i);
    }
    if es[n] == Start(true, true) {
      assert NotChosenSince(es, n);
    }
    if es[n].Typed? && es[n].c != '1' && Choosing(es[..n]) {
      var i :| 0 <= i < n && es[..n][i] == Start(true, true) && NotChosenSince(es[..n], i);
      assert es[i] == Start(true, true);
      forall j | i < j < |es| ensures es[j].Typed? && es[j].c != '1' {
        if j < n { assert es[j] == es[..n][j]; }
      }
      assert NotChosenSince(es, i);
    }
  }

  lemma NotBoth(es: seq<Event>)
    requires Chosen(es)
    ensures !Choosing(es)
  {
    ChoosingStep(es);
  }

  /**
   * Over every run: drive 0 is never written, and an event changes drive 1 exactly by copying as
   * many sectors as its fate allows when it confirms a detected and chosen drive, and otherwise not
   * at all.
   */
  lemma WrittenOnlyConfirmed(m: Machine, es: seq<Event>)
    requires Idle(m) && |es| > 0
    ensures var before, after := Run(m, es[..|es| - 1]), Run(m, es);
      && after.disk0 == before.disk0
      && after.disk1 == if Confirmed(es) then Copied(before.disk1, before.disk0, Progress(es[|es| - 1].fate)) else before.disk1
  {
    StateIsHistory(m, es[..|es| - 1]);
    if Chosen(es[..|es| - 1]) {
      NotBoth(es[..|es| - 1]);
    }
  }

  lemma {:induction false} SourceKept(m: Machine, es: seq<Event>)
    requires Idle(m)
    ensures Run(m, es).disk0 == m.disk0
    decreases |es|
  {
    if |es| > 0 {
      WrittenOnlyConfirmed(m, es);
      SourceKept(m, es[..|es| - 1]);
    }
  }

  /** Nothing confirmed, nothing written. */
  lemma {:induction false} UnconfirmedUntouched(m: Machine, es: seq<Event>)
    requires Idle(m) && forall k :: 0 < k <= |es| ==> !Confirmed(es[..k])
    ensures Run(m, es).disk1 == m.disk1
    decreases |es|
  {
    if |es| > 0 {
      var n := |es| - 1;
      assert es[..|es|] == es;
      WrittenOnlyConfirmed(m, es);
      assert forall k :: 0 <= k <= n ==> es[..n][..k] == es[..k];
      UnconfirmedUntouched(m, es[..n]);
    }
  }

  /** A confirmed copy that works makes all 53248 sectors equal; one that fails at sector `k` has copied
      exactly those before it, and one without memory none. */
  lemma CopyExact(m: Machine, es: seq<Event>, n: nat)
    requires Idle(m) && Confirmed(es)
    requires match es[|es| - 1].fate
      case Works => n == 53248
      case NoMemory => n == 0
      case ReadFails(k) => n == if k < 53248 then k else 53248
      case WriteFails(k) => n == if k < 53248 then k else 53248
    ensures var before, after := Run(m, es[..|es| - 1]), Run(m, es);
      && (forall s :: 0 <= s < n ==> after.disk1[s] == m.disk0[s])
      && (forall s :: n <= s < |before.disk1| ==> after.disk1[s] == before.disk1[s])
      && !after.active && |after.disk1| == |before.disk1|
  {
    WrittenOnlyConfirmed(m, es);
    SourceKept(m, es[..|es| - 1]);
    StateIsHistory(m, es[..|es| - 1]);
    NotBoth(es[..|es| - 1]);
  }

  // ----- the program -----

  class Program {
    var active: bool
    var state: nat
    var found: seq<byte>
    var target: byte
    const disk0: array<Sector>
    const disk1: array<Sector>

    ghost predicate Valid()
      reads this
    {
      && disk0.Length >= INSTALL_SECTOR_COUNT && disk1.Length >= INSTALL_SECTOR_COUNT && disk0 != disk1
      && (active && state == 1 ==> target == 1)
    }

    ghost function View(): (m: Machine)
      requires Valid()
      reads this, disk0, disk1
      ensures Sized(m)
    {
      Machine(active, state, found, target, disk0[..], disk1[..])
    }

    constructor (a: array<Sector>, b: array<Sector>)
      requires a.Length >= INSTALL_SECTOR_COUNT && b.Length >= INSTALL_SECTOR_COUNT && a != b
      ensures Valid() && disk0 == a && disk1 == b && Idle(View())
    {
      active, state, found, target, disk0, disk1 := false, 0, [], NO_DRIVE, a, b;
    }

    method InstallerStart(primary: bool, slave: bool)
      requires Valid()
      modifies this
      ensures Valid()
      ensures View() == Step(old(View()), Start(primary, slave))
    {
      active, state, found, target := true, 0, [], NO_DRIVE;
      for d := 0 to 2
        invariant found == Detected(primary && d > 0, slave && d > 1)
        invariant active && state == 0 && target == NO_DRIVE
      {
        if (d == 0 && primary) || (d == 1 && slave) {
          found := found + [d];
        }
      }
      if |found| < 2 {
        active := false;
      }
    }

    method InstallerHandleChar(c: char, fate: Fate)
      requires Valid()
      modifies this, disk0, disk1
      ensures Valid()
      ensures View() == Step(old(View()), Typed(c, fate))
    {
      if !active {
        return;
      }
      if state == 0 {
        if c < '0' || c > '1' {
          return;
        }
        var chosen: byte := if c == '0' then 0 else 1;
        if chosen == SOURCE_DRIVE {
          return;
        }
        var detected := false;
        var i := 0;
        while i < |found|
          invariant i <= |found|
          invariant detected <==> chosen in found[..i]
        {
          if found[i] == chosen {
            detected := true;
          }
          i := i + 1;
        }
        assert found[..i] == found;
        if !detected {
          return;
        }
        target := chosen;
        state := 1;
        return;
      }
      if state == 1 {
        if c == 'y' || c == 'Y' {
          state := 2;
          RunInstall(fate);
          state := 3;
          active := false;
        } else {
          active := false;
        }
      }
    }

    method AtaWriteSector(drive: byte, lba: nat, s: Sector)
      requires lba < disk0.Length && lba < disk1.Length && disk0 != disk1
      modifies disk0, disk1
      ensures disk0[..] == if drive == 0 then old(disk0[..])[lba := s] else old(disk0[..])
      ensures disk1[..] == if drive == 1 then old(disk1[..])[lba := s] else old(disk1[..])
    {
      if drive == 0 {
        disk0[lba] := s;
      } else if drive == 1 {
        disk1[lba] := s;
      }
    }

    /** The sector copy; it stops at the first failure, having written what came before. */
    method RunInstall(fate: Fate)
      requires Valid() && target == 1
      modifies disk0, disk1
      ensures disk0[..] == old(disk0[..])
      ensures disk1[..] == Copied(old(disk1[..]), old(disk0[..]), Progress(fate))
    {
      if fate == NoMemory {
        return;
      }
      ghost var was, src := disk1[..], disk0[..];
      var lba := 0;
      while lba < INSTALL_SECTOR_COUNT
        invariant lba <= Progress(fate)
        invariant disk0[..] == src && disk1[..] == Copied(was, src, lba)
      {
        if fate == ReadFails(lba) {
          return;
        }
        var buf := disk0[lba];
        assert buf == src[lba];
        if fate == WriteFails(lba) {
          return;
        }
        CopiedNext(was, src, lba);
        AtaWriteSector(target, lba, buf);
        lba := lba + 1;
      }
    }
  }
}
