/** The journal structure of the kernel, its calls, and replay as the byte loop that a crash can interrupt. */
module JournalDevice {
  import opened Words
  import opened BlockDisk
  import opened Journal

  /** The byte copy of one block into an entry. */
  method CopyBlock(dst: seq<byte>, src: seq<byte>) returns (r: seq<byte>)
    requires |dst| == |src| == BLOCK
    ensures r == src
  {
    r := dst;
    for i := 0 to BLOCK
      invariant |r| == BLOCK && r[..i] == src[..i]
    {
      r := r[i := src[i]];
    }
  }

  class Device {
    var magic: nat
    var committed: nat
    var entryCount: nat
    const entries: array<Entry>

    ghost predicate Storage()
      reads this, entries
    {
      entries.Length == MAX_ENTRIES && forall i :: 0 <= i < MAX_ENTRIES ==> |entries[i].data| == BLOCK
    }

    ghost predicate Valid()
      reads this, entries
    {
      Storage() && entryCount <= MAX_ENTRIES
    }

    ghost function Contents(): (log: Log)
      requires Valid()
      reads this, entries
      ensures WellFormed(log.entries)
    {
      Log(magic, committed, entries[..entryCount])
    }

    /** m16_memzero over the whole structure. */
    method Zero()
      requires Storage()
      modifies this, entries
      ensures Valid() && Contents() == Log(0, 0, [])
    {
      magic, committed, entryCount := 0, 0, 0;
      for i := 0 to MAX_ENTRIES
        invariant Storage() && magic == 0 && committed == 0 && entryCount == 0
      {
        entries[i] := Entry(0, seq(BLOCK, _ => 0), false);
      }
    }

    method Init()
      requires Storage()
      modifies this, entries
      ensures Valid() && forall before :: Contents() == Step(before, Call.Init)
    {
      Zero();
      magic := MAGIC;
    }

    method Append(target: nat, data: seq<byte>) returns (r: int)
      requires Valid() && |data| == BLOCK
      modifies this, entries
      ensures Valid() && Contents() == Step(old(Contents()), Call.Append(target, data))
      ensures r == if |old(Contents()).entries| < MAX_ENTRIES then OK else EFULL
    {
      if entryCount >= MAX_ENTRIES { return EFULL; }
      var copy := CopyBlock(entries[entryCount].data, data);
      entries[entryCount] := Entry(target, copy, true);
      entryCount := entryCount + 1;
      return OK;
    }

    method Commit() returns (r: int)
      requires Valid()
      modifies this
      ensures Valid() && Contents() == Step(old(Contents()), Call.Commit) && r == OK
    {
      committed := 1;
      return OK;
    }

    method Clear()
      requires Valid()
      modifies this, entries
      ensures Valid() && Contents() == Step(old(Contents()), Call.Clear)
      ensures magic == old(magic) && committed == 0 && entryCount == 0
    {
      var keep := magic;
      Zero();
      magic := keep;
    }

    /** m16_journal_fsck reads the counter, not the entries; memory may hold any counter. */
    method Check() returns (r: int)
      requires Storage()
      ensures r == OK || r == ECORRUPT
      ensures r == OK <==> magic == MAGIC && entryCount <= MAX_ENTRIES
      ensures Valid() ==> r == Fsck(Contents())
    {
      if magic != MAGIC { return ECORRUPT; }
      if entryCount > MAX_ENTRIES { return ECORRUPT; }
      return OK;
    }

    /** `points` records the disk before the first and after every byte store: all the disks a crash can leave. */
    method Recover(disk: array<byte>, blocks: nat) returns (r: int, ghost points: seq<Disk>)
      requires Valid() && blocks * BLOCK <= disk.Length < TWO64
      modifies disk
      ensures unchanged(this) && unchanged(entries)
      ensures r == Status(Contents(), blocks)
      ensures disk[..] == Replay(Contents(), blocks, old(disk[..]))
      ensures |points| == |ReplayStores(Contents(), blocks)| + 1
      ensures forall k :: 0 <= k < |points| ==> points[k] == Crash(Contents(), blocks, old(disk[..]), k)
    {
      ghost var log, d := Contents(), disk[..];
      ReplayInside(log, blocks, |d|);
      points := [d];
      r := OK;
      if magic != MAGIC {
        r := ECORRUPT;
      } else if committed != 0 {
        r, points := ReplayEntries(disk, blocks);
      }
      TraceIsCrash(points, log, blocks, d);
    }

    /** The loop over the entries of a committed journal. */
    method ReplayEntries(disk: array<byte>, blocks: nat) returns (r: int, ghost points: seq<Disk>)
      requires Valid() && Active(Contents()) && blocks * BLOCK <= disk.Length < TWO64
      modifies disk
      ensures unchanged(this) && unchanged(entries)
      ensures r == Status(Contents(), blocks)
      ensures var ps := ReplayStores(Contents(), blocks);
              Trace(points, old(disk[..]), ps, |ps|) && disk[..] == points[|ps|]
    {
      ghost var es, d := Contents().entries, disk[..];
      ghost var ps := ReplayStores(Contents(), blocks);
      ReplayInside(Contents(), blocks, |d|);
      assert es[..0] == [];
      ghost var done: nat := 0;
      points := [d];
      var i := 0;
      while i < entryCount
        invariant i <= Reach(es, blocks)
        invariant done == |Stores(es[..i])|
        invariant Trace(points, d, ps, done) && disk[..] == points[done]
      {
        var e := entries[i];
        assert e == es[i];
        ReachStep(es, blocks, i);
        if e.valid {
          if e.target >= blocks { return ECORRUPT, points; }
          done, points := CopyOut(disk, e, blocks, d, ps, done, points);
        }
        i := i + 1;
      }
      r := OK;
    }

    /** One call; Rerun replays. */
    method Perform(c: Call, disk: array<byte>, blocks: nat)
      requires Valid() && CallOk(c) && blocks * BLOCK <= disk.Length < TWO64
      modifies this, entries, disk
      ensures Valid() && Contents() == Step(old(Contents()), c)
      ensures disk[..] == if c.Rerun? then Replay(old(Contents()), blocks, old(disk[..])) else old(disk[..])
    {
      match c
      case Init => Init();
      case Append(target, data) => var r := Append(target, data);
      case Commit => var r := Commit();
      case Clear => Clear();
      case Rerun => ghost var points; var r; r, points := Recover(disk, blocks);
    }

    /** Any sequence of calls: the structure ends as the journal of the run, and the disk as what its replays leave. */
    method Execute(cs: seq<Call>, disk: array<byte>, blocks: nat)
      requires Valid() && blocks * BLOCK <= disk.Length < TWO64 && CallsOk(cs)
      modifies this, entries, disk
      ensures Valid() && Contents() == Run(old(Contents()), cs)
      ensures disk[..] == RunDisk(old(Contents()), cs, blocks, old(disk[..]))
    {
      for i := 0 to |cs|
        invariant Valid() && Contents() == Run(old(Contents()), cs[..i])
        invariant disk[..] == RunDisk(old(Contents()), cs[..i], blocks, old(disk[..]))
      {
        Perform(cs[i], disk, blocks);
        assert cs[..i + 1][..i] == cs[..i];
      }
      assert cs[..|cs|] == cs;
    }

    /** Copies the block of one entry to the disk, byte by byte. */
    method CopyOut(disk: array<byte>, e: Entry, blocks: nat, ghost d: Disk, ghost ps: seq<Put>, ghost start: nat,
                   ghost before: seq<Disk>)
      returns (ghost done: nat, ghost points: seq<Disk>)
      requires |e.data| == BLOCK && e.target < blocks && blocks * BLOCK <= disk.Length < TWO64
      requires Inside(ps, |d|) && |d| == disk.Length
      requires start + BLOCK <= |ps| && ps[start..start + BLOCK] == Copy(e.target * BLOCK, e.data)
      requires Trace(before, d, ps, start) && disk[..] == before[start]
      modifies disk
      ensures done == start + BLOCK && Trace(points, d, ps, done) && disk[..] == points[done]
    {
      var dst := U64(e.target * BLOCK);
      done, points := start, before;
      for j := 0 to BLOCK
        invariant done == start + j
        invariant Trace(points, d, ps, done) && disk[..] == points[done]
      {
        assert ps[done] == ps[start..start + BLOCK][j] == Put(dst + j, e.data[j]);
        TraceNext(points, d, ps, done);
        disk[dst + j] := e.data[j];
        assert disk[..] == points[done][dst + j := e.data[j]];
        done, points := done + 1, points + [disk[..]];
      }
    }
  }

  /** points[0], ..., points[n] are the disks after 0, ..., n of the stores ps on d. */
  ghost predicate Trace(points: seq<Disk>, d: Disk, ps: seq<Put>, n: nat) {
    && Inside(ps, |d|) && n <= |ps| && |points| == n + 1
    && forall k :: 0 <= k <= n ==> points[k] == Apply(d, ps[..k])
  }

  /** One store more. */
  lemma TraceNext(points: seq<Disk>, d: Disk, ps: seq<Put>, n: nat)
    requires Trace(points, d, ps, n) && n < |ps|
    ensures |points[n]| == |d| && ps[n].addr < |d|
    ensures Trace(points + [points[n][ps[n].addr := ps[n].val]], d, ps, n + 1)
  {
    assert ps[..n + 1][..n] == ps[..n];
  }

  lemma TraceIsCrash(points: seq<Disk>, log: Log, blocks: nat, d: Disk)
    requires WellFormed(log.entries) && blocks * BLOCK <= |d|
    requires Trace(points, d, ReplayStores(log, blocks), |ReplayStores(log, blocks)|)
    ensures points[|points| - 1] == Replay(log, blocks, d)
    ensures forall k :: 0 <= k < |points| ==> points[k] == Crash(log, blocks, d, k)
  {
    var ps := ReplayStores(log, blocks);
    assert ps[..|ps|] == ps;
  }

  /** The stores of one more entry follow those of the entries before it. */
  lemma ReachStep(es: seq<Entry>, blocks: nat, i: nat)
    requires WellFormed(es) && i < |es| && i <= Reach(es, blocks)
    ensures i == Reach(es, blocks) <==> Bad(es[i], blocks)
    ensures var ps := Stores(es[..Reach(es, blocks)]);
            var n := |Stores(es[..i])|;
            && !Bad(es[i], blocks) ==>
               && n + (if es[i].valid then BLOCK else 0) == |Stores(es[..i + 1])| <= |ps|
               && (es[i].valid ==> ps[n..n + BLOCK] == Copy(es[i].target * BLOCK, es[i].data))
  {
    if !Bad(es[i], blocks) {
      StoresNext(es, i);
      StoresPrefix(es[..Reach(es, blocks)], i + 1);
      assert es[..Reach(es, blocks)][..i + 1] == es[..i + 1];
      var more := if es[i].valid then Copy(es[i].target * BLOCK, es[i].data) else [];
      MiddlePart(Stores(es[..i]), more, Stores(es[..Reach(es, blocks)]));
    }
  }

  lemma StoresNext(es: seq<Entry>, i: nat)
    requires i < |es|
    ensures Stores(es[..i + 1]) == Stores(es[..i]) + if es[i].valid then Copy(es[i].target * BLOCK, es[i].data) else []
  {
    assert es[..i + 1][..i] == es[..i];
  }

  lemma MiddlePart<T>(x: seq<T>, y: seq<T>, whole: seq<T>)
    requires x + y <= whole
    ensures whole[|x|..|x| + |y|] == y
  {
    assert whole[..|x| + |y|] == x + y;
  }

  lemma {:induction false} StoresPrefix(es: seq<Entry>, n: nat)
    requires n <= |es|
    ensures Stores(es[..n]) <= Stores(es)
  {
    if n < |es| {
      StoresPrefix(es[..|es| - 1], n);
      assert es[..|es| - 1][..n] == es[..n];
    } else {
      assert es[..n] == es;
    }
  }
}
