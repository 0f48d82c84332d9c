/** The write-ahead journal: what replay does to a disk, crashes included, and what a run of calls leaves behind. */
module Journal {
  import opened Words
  import opened BlockDisk

  const MAGIC: nat := 0x4D31364A
  const MAX_ENTRIES: nat := 32

  const OK := 0
  const EFULL := -2
  const ECORRUPT := -3

  datatype Entry = Entry(target: nat, data: seq<byte>, valid: bool)
  datatype Log = Log(magic: nat, committed: nat, entries: seq<Entry>)

  ghost predicate WellFormed(es: seq<Entry>) {
    forall i :: 0 <= i < |es| ==> |es[i].data| == BLOCK
  }

  // ---------------------------------------------------------------- replay

  /** Replay stops at an entry that is valid and names a block beyond the disk. */
  predicate Bad(e: Entry, blocks: nat) {
    e.valid && e.target >= blocks
  }

  /** How many entries replay gets past: up to the first bad one. */
  function Reach(es: seq<Entry>, blocks: nat): (r: nat)
    ensures r <= |es|
    ensures forall i :: 0 <= i < r ==> !Bad(es[i], blocks)
    ensures r < |es| ==> Bad(es[r], blocks)
  {
    if es == [] then 0
    else
      var k := Reach(es[..|es| - 1], blocks);
      if k == |es| - 1 && !Bad(es[k], blocks) then |es| else k
  }

  /** The byte stores of replaying es, in order. */
  function Stores(es: seq<Entry>): seq<Put> {
    if es == [] then []
    else
      var e := es[|es| - 1];
      Stores(es[..|es| - 1]) + (if e.valid then Copy(e.target * BLOCK, e.data) else [])
  }

  lemma {:induction false} StoresInside(es: seq<Entry>, blocks: nat, size: nat)
    requires WellFormed(es) && blocks * BLOCK <= size
    requires forall i :: 0 <= i < |es| ==> !Bad(es[i], blocks)
    ensures Inside(Stores(es), size)
  {
    if es == [] {
    } else {
      StoresInside(es[..|es| - 1], blocks, size);
      var e := es[|es| - 1];
      assert e.valid ==> (e.target + 1) * BLOCK <= size;
    }
  }

  predicate Active(log: Log) {
    log.magic == MAGIC && log.committed != 0
  }

  /** All byte stores of one replay. */
  function ReplayStores(log: Log, blocks: nat): seq<Put> {
    if Active(log) then Stores(log.entries[..Reach(log.entries, blocks)]) else []
  }

  function Status(log: Log, blocks: nat): int {
    if log.magic != MAGIC then ECORRUPT
    else if log.committed == 0 then OK
    else if Reach(log.entries, blocks) < |log.entries| then ECORRUPT
    else OK
  }

  /** A replay succeeds exactly on a journal with its magic number whose targets, if it is committed, all lie on the
      disk; otherwise it reports corruption. */
  lemma StatusIff(log: Log, blocks: nat)
    ensures Status(log, blocks) == 0 <==>
            && log.magic == 0x4D31364A
            && (log.committed == 0 || forall i :: 0 <= i < |log.entries| && log.entries[i].valid ==>
                                        log.entries[i].target < blocks)
    ensures Status(log, blocks) != 0 ==> Status(log, blocks) == -3
  {
    var k := Reach(log.entries, blocks);
    if k < |log.entries| {
      assert Bad(log.entries[k], blocks);
    } else {
      assert forall i :: 0 <= i < |log.entries| ==> !Bad(log.entries[i], blocks);
    }
  }

  lemma ReplayInside(log: Log, blocks: nat, size: nat)
    requires WellFormed(log.entries) && blocks * BLOCK <= size
    ensures Inside(ReplayStores(log, blocks), size)
  {
    if Active(log) {
      StoresInside(log.entries[..Reach(log.entries, blocks)], blocks, size);
    }
  }

  /** The disk after the first n byte stores of a replay: a crash point, or with n large enough the full replay. */
  ghost function Crash(log: Log, blocks: nat, d: Disk, n: nat): (r: Disk)
    requires WellFormed(log.entries) && blocks * BLOCK <= |d|
    ensures |r| == |d|
  {
    ReplayInside(log, blocks, |d|);
    var ps := ReplayStores(log, blocks);
    Apply(d, ps[..Min(n, |ps|)])
  }

  ghost function Replay(log: Log, blocks: nat, d: Disk): (r: Disk)
    requires WellFormed(log.entries) && blocks * BLOCK <= |d|
    ensures |r| == |d|
  {
    ReplayInside(log, blocks, |d|);
    Apply(d, ReplayStores(log, blocks))
  }

  /** A journal without its magic number or without a commit leaves every disk alone. */
  lemma InactiveReplay(log: Log, blocks: nat, d: Disk)
    requires WellFormed(log.entries) && blocks * BLOCK <= |d| && (log.magic != 0x4D31364A || log.committed == 0)
    ensures Replay(log, blocks, d) == d
  {
  }

  /** Crash recovery: replay after a replay that stopped at any byte gives the disk of one undisturbed replay,
      whatever the targets are. (The status depends on the journal alone.) */
  lemma CrashRecovery(log: Log, blocks: nat, d: Disk, n: nat)
    requires WellFormed(log.entries) && blocks * BLOCK <= |d|
    ensures Replay(log, blocks, Crash(log, blocks, d, n)) == Replay(log, blocks, d)
  {
    ReplayInside(log, blocks, |d|);
    var ps := ReplayStores(log, blocks);
    Redo(d, ps, Min(n, |ps|));
  }

  /** The disk after a series of replays that crash after crashes[0], crashes[1], ... byte stores. */
  ghost function Crashes(log: Log, blocks: nat, d: Disk, crashes: seq<nat>): (r: Disk)
    requires WellFormed(log.entries) && blocks * BLOCK <= |d|
    ensures |r| == |d|
  {
    if crashes == [] then d
    else Crash(log, blocks, Crashes(log, blocks, d, crashes[..|crashes| - 1]), crashes[|crashes| - 1])
  }

  /** Any number of crashed replays do no harm. */
  lemma {:induction false} RepeatedCrashRecovery(log: Log, blocks: nat, d: Disk, crashes: seq<nat>)
    requires WellFormed(log.entries) && blocks * BLOCK <= |d|
    ensures Replay(log, blocks, Crashes(log, blocks, d, crashes)) == Replay(log, blocks, d)
  {
    if crashes == [] {
    } else {
      var before := crashes[..|crashes| - 1];
      RepeatedCrashRecovery(log, blocks, d, before);
      CrashRecovery(log, blocks, Crashes(log, blocks, d, before), crashes[|crashes| - 1]);
    }
  }

  lemma ReplayIdempotent(log: Log, blocks: nat, d: Disk)
    requires WellFormed(log.entries) && blocks * BLOCK <= |d|
    ensures Replay(log, blocks, Replay(log, blocks, d)) == Replay(log, blocks, d)
  {
    ReplayInside(log, blocks, |d|);
    var ps := ReplayStores(log, blocks);
    assert ps[..|ps|] == ps;
    CrashRecovery(log, blocks, d, |ps|);
  }

  // ---------------------------------------------------------------- replay as block writes

  /** The block writes of es issued in order on a block device. */
  ghost function BlockWrites(es: seq<Entry>, d: Disk, blocks: nat): (r: Disk)
    requires WellFormed(es) && blocks * BLOCK <= |d|
    requires forall i :: 0 <= i < |es| ==> !Bad(es[i], blocks)
    ensures |r| == |d|
  {
    if es == [] then d
    else
      var e := es[|es| - 1];
      var before := BlockWrites(es[..|es| - 1], d, blocks);
      assert !Bad(es[|es| - 1], blocks);
      if e.valid then WriteBlock(before, e.target, e.data) else before
  }

  lemma {:induction false} StoresAreBlockWrites(es: seq<Entry>, d: Disk, blocks: nat)
    requires WellFormed(es) && blocks * BLOCK <= |d|
    requires forall i :: 0 <= i < |es| ==> !Bad(es[i], blocks)
    ensures Inside(Stores(es), |d|)
    ensures Apply(d, Stores(es)) == BlockWrites(es, d, blocks)
  {
    StoresInside(es, blocks, |d|);
    if es == [] {
    } else {
      var init, e := es[..|es| - 1], es[|es| - 1];
      StoresInside(init, blocks, |d|);
      StoresAreBlockWrites(init, d, blocks);
      if e.valid {
        assert (e.target + 1) * BLOCK <= |d|;
        CopyIsWriteBlock(BlockWrites(init, d, blocks), e.target, e.data);
        ApplyConcat(d, Stores(init), Copy(e.target * BLOCK, e.data));
      } else {
        assert Stores(es) == Stores(init);
      }
    }
  }

  /** Replaying a committed journal is issuing the block writes of the entries before the first bad target, and
      of all entries when no target is bad. */
  lemma ReplayIsBlockWrites(log: Log, blocks: nat, d: Disk)
    requires WellFormed(log.entries) && blocks * BLOCK <= |d| && Active(log)
    ensures Replay(log, blocks, d) == BlockWrites(log.entries[..Reach(log.entries, blocks)], d, blocks)
    ensures Status(log, blocks) == OK <==> Reach(log.entries, blocks) == |log.entries|
  {
    StoresAreBlockWrites(log.entries[..Reach(log.entries, blocks)], d, blocks);
  }

  /** The last valid entry among es that targets block b, or |es|. */
  function LastFor(es: seq<Entry>, b: nat): (r: nat)
    ensures r <= |es|
    ensures r < |es| ==> es[r].valid && es[r].target == b
    ensures forall i :: 0 <= i < |es| && (i > r || r == |es|) ==> !(es[i].valid && es[i].target == b)
  {
    if es == [] then 0
    else if es[|es| - 1].valid && es[|es| - 1].target == b then |es| - 1
    else
      var k := LastFor(es[..|es| - 1], b);
      if k == |es| - 1 then |es| else k
  }

  lemma {:induction false} BlockWritesAt(es: seq<Entry>, d: Disk, blocks: nat, b: nat)
    requires WellFormed(es) && blocks * BLOCK <= |d| && b < blocks
    requires forall i :: 0 <= i < |es| ==> !Bad(es[i], blocks)
    ensures (b + 1) * BLOCK <= |d|
    ensures Block(BlockWrites(es, d, blocks), b) ==
            if LastFor(es, b) < |es| then es[LastFor(es, b)].data else Block(d, b)
  {
    assert (b + 1) * BLOCK <= blocks * BLOCK;
    if es == [] {
    } else {
      var init, e := es[..|es| - 1], es[|es| - 1];
      BlockWritesAt(init, d, blocks, b);
      if e.valid {
        assert (e.target + 1) * BLOCK <= |d|;
        WriteThenRead(BlockWrites(init, d, blocks), e.target, e.data, b);
      }
    }
  }

  /** After replay each block holds the data of the last applied entry that names it, or what it held before. */
  lemma BlockAfterReplay(log: Log, blocks: nat, d: Disk, b: nat)
    requires WellFormed(log.entries) && blocks * BLOCK <= |d| && b < blocks && Active(log)
    ensures (b + 1) * BLOCK <= |d|
    ensures var applied := log.entries[..Reach(log.entries, blocks)];
            Block(Replay(log, blocks, d), b) ==
            if LastFor(applied, b) < |applied| then applied[LastFor(applied, b)].data else Block(d, b)
  {
    var applied := log.entries[..Reach(log.entries, blocks)];
    BlockWritesAt(applied, d, blocks, b);
    ReplayIsBlockWrites(log, blocks, d);
  }

  lemma {:induction false} NoStores(es: seq<Entry>)
    requires WellFormed(es)
    ensures Stores(es) == [] <==> forall i :: 0 <= i < |es| ==> !es[i].valid
  {
    if es == [] {
    } else {
      var init := es[..|es| - 1];
      NoStores(init);
      assert forall i :: 0 <= i < |init| ==> init[i] == es[i];
      assert es[|es| - 1].valid ==> |Stores(es)| >= BLOCK;
    }
  }

  function Constant(n: nat, b: byte): (d: Disk)
    ensures |d| == n && forall i :: 0 <= i < n ==> d[i] == b
  {
    if n == 0 then [] else Constant(n - 1, b) + [b]
  }

  /** Replay is not all-or-nothing: one that stops at a bad target leaves every disk as it was exactly when no valid
      entry comes before that target. */
  lemma FailedReplayHarmlessIff(log: Log, blocks: nat)
    requires WellFormed(log.entries) && Active(log) && Reach(log.entries, blocks) < |log.entries|
    ensures (forall d: Disk :: |d| == blocks * BLOCK ==> Replay(log, blocks, d) == d) <==>
            forall i :: 0 <= i < Reach(log.entries, blocks) ==> !log.entries[i].valid
  {
    var es := log.entries[..Reach(log.entries, blocks)];
    NoStores(es);
    if Stores(es) != [] {
      var ps := Stores(es);
      var a := ps[0].addr;
      StoresInside(es, blocks, blocks * BLOCK);
      var last := ps[LastTo(ps, a)].val;
      var d := Constant(blocks * BLOCK, if last == 0 then 1 else 0);
      ApplyAt(d, ps, a);
      assert Replay(log, blocks, d)[a] == last != d[a];
    }
    assert forall i :: 0 <= i < |es| ==> es[i] == log.entries[i];
  }

  // ---------------------------------------------------------------- runs

  datatype Call =
    | Init
    | Append(target: nat, data: seq<byte>)
    | Commit
    | Clear
    | Rerun

  ghost predicate CallOk(c: Call) {
    c.Append? ==> |c.data| == BLOCK
  }

  ghost predicate CallsOk(cs: seq<Call>) {
    forall i :: 0 <= i < |cs| ==> CallOk(cs[i])
  }

  function Step(log: Log, c: Call): Log {
    match c
    case Init => Log(MAGIC, 0, [])
    case Append(t, data) =>
      if |log.entries| >= MAX_ENTRIES then log else log.(entries := log.entries + [Entry(t, data, true)])
    case Commit => log.(committed := 1)
    case Clear => Log(log.magic, 0, [])
    case Rerun => log
  }

  function Run(log: Log, cs: seq<Call>): Log {
    if cs == [] then log else Step(Run(log, cs[..|cs| - 1]), cs[|cs| - 1])
  }

  /** The calls after the last Init or Clear. */
  function SinceReset(cs: seq<Call>): (r: seq<Call>)
    ensures forall i :: 0 <= i < |r| ==> !r[i].Init? && !r[i].Clear?
  {
    if cs == [] || cs[|cs| - 1].Init? || cs[|cs| - 1].Clear? then []
    else SinceReset(cs[..|cs| - 1]) + [cs[|cs| - 1]]
  }

  /** The entries that the Append calls among cs ask for. */
  function Appends(cs: seq<Call>): seq<Entry> {
    if cs == [] then []
    else
      var c := cs[|cs| - 1];
      Appends(cs[..|cs| - 1]) + (if c.Append? then [Entry(c.target, c.data, true)] else [])
  }

  function Take<T>(s: seq<T>, n: nat): seq<T> {
    s[..Min(n, |s|)]
  }

  /** The journal is what the calls since the last reset make of it. */
  ghost predicate Tells(log: Log, since: seq<Call>) {
    && log.magic == MAGIC
    && log.entries == Take(Appends(since), MAX_ENTRIES)
    && (log.committed != 0 <==> Commit in since)
  }

  lemma TellsStep(log: Log, since: seq<Call>, c: Call)
    requires Tells(log, since)
    ensures Tells(Step(log, c), if c.Init? || c.Clear? then [] else since + [c])
  {
    assert (since + [c])[..|since|] == since;
    assert c in since + [c];
  }

  /** In every run that starts with Init, from whatever memory held before: the entries are the first 32 appends
      since the last Init or Clear, committed or not; the journal is committed exactly if a Commit followed; and
      fsck passes. */
  lemma {:induction false} RunHistory(log: Log, cs: seq<Call>)
    ensures Tells(Run(log, [Init] + cs), SinceReset([Init] + cs))
    ensures Fsck(Run(log, [Init] + cs)) == OK
  {
    var all := [Init] + cs;
    if cs == [] {
      assert all[..|all| - 1] == [];
    } else {
      var init := cs[..|cs| - 1];
      RunHistory(log, init);
      assert all[..|all| - 1] == [Init] + init;
      TellsStep(Run(log, [Init] + init), SinceReset([Init] + init), all[|all| - 1]);
    }
  }

  /** The consistency check, and what clearing does for it: a journal without its magic number stays without it. */
  lemma FsckIff(log: Log)
    ensures Fsck(log) == 0 <==> log.magic == 0x4D31364A && |log.entries| <= 32
    ensures Fsck(log) != 0 ==> Fsck(log) == -3
    ensures Fsck(Step(log, Clear)) == 0 <==> log.magic == 0x4D31364A
    ensures Fsck(Step(log, Init)) == 0
  {
  }

  function Fsck(log: Log): int {
    if log.magic != MAGIC then ECORRUPT else if |log.entries| > MAX_ENTRIES then ECORRUPT else OK
  }

  /** Replay touches the disk only if a Commit followed the last Init or Clear. */
  lemma NoCommitNoChange(log: Log, cs: seq<Call>, blocks: nat, d: Disk)
    requires CallsOk(cs)
    requires blocks * BLOCK <= |d|
    ensures WellFormed(Run(log, [Init] + cs).entries)
    ensures Commit !in SinceReset([Init] + cs) ==>
              Replay(Run(log, [Init] + cs), blocks, d) == d && Status(Run(log, [Init] + cs), blocks) == OK
  {
    RunHistory(log, cs);
    RunWellFormed(log, cs);
  }

  lemma {:induction false} RunWellFormed(log: Log, cs: seq<Call>)
    requires CallsOk(cs)
    ensures WellFormed(Run(log, [Init] + cs).entries)
  {
    var all := [Init] + cs;
    if cs == [] {
      assert all[..|all| - 1] == [];
    } else {
      RunWellFormed(log, cs[..|cs| - 1]);
      assert all[..|all| - 1] == [Init] + cs[..|cs| - 1];
    }
  }

  // ---------------------------------------------------------------- runs and the disk

  lemma {:induction false} KeepsWellFormed(log: Log, cs: seq<Call>)
    requires WellFormed(log.entries) && CallsOk(cs)
    ensures WellFormed(Run(log, cs).entries)
  {
    if cs == [] {
    } else {
      KeepsWellFormed(log, cs[..|cs| - 1]);
      assert CallOk(cs[|cs| - 1]);
    }
  }

  /** The disk after the calls cs: every Rerun replays the journal as it then is. */
  ghost function RunDisk(log: Log, cs: seq<Call>, blocks: nat, d: Disk): (r: Disk)
    requires WellFormed(log.entries) && blocks * BLOCK <= |d| && CallsOk(cs)
    ensures |r| == |d|
  {
    if cs == [] then d
    else
      var init := cs[..|cs| - 1];
      KeepsWellFormed(log, init);
      var before := RunDisk(log, init, blocks, d);
      if cs[|cs| - 1].Rerun? then Replay(Run(log, init), blocks, before) else before
  }
}
