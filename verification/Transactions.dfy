/**
 The journal in use: block writes grouped into transactions, each appended, committed, replayed and cleared. A crash
 anywhere, followed by a replay, leaves the writes of exactly the committed transactions.
 */
module Transactions {
  import opened Words
  import opened BlockDisk
  import opened Journal

  /** The journal right after initialisation or clearing. */
  const CLEAN: Log := Log(MAGIC, 0, [])

  /** The entries fit the journal and name blocks of the disk. */
  ghost predicate Fits(tx: seq<Entry>, blocks: nat) {
    && |tx| <= MAX_ENTRIES && WellFormed(tx)
    && forall i :: 0 <= i < |tx| ==> tx[i].valid && tx[i].target < blocks
  }

  ghost predicate AllFit(txs: seq<seq<Entry>>, blocks: nat) {
    forall i :: 0 <= i < |txs| ==> Fits(txs[i], blocks)
  }

  /** The appends of one transaction. */
  function AppendCalls(tx: seq<Entry>): (cs: seq<Call>)
    ensures |cs| == |tx| && forall i :: 0 <= i < |tx| ==> cs[i] == Append(tx[i].target, tx[i].data)
  {
    if tx == [] then [] else AppendCalls(tx[..|tx| - 1]) + [Append(tx[|tx| - 1].target, tx[|tx| - 1].data)]
  }

  /** The calls that carry out one transaction. */
  function Calls(tx: seq<Entry>): seq<Call> {
    AppendCalls(tx) + [Commit, Rerun, Clear]
  }

  function Program(txs: seq<seq<Entry>>): seq<Call> {
    if txs == [] then [] else Program(txs[..|txs| - 1]) + Calls(txs[|txs| - 1])
  }

  function Commits(cs: seq<Call>): nat {
    if cs == [] then 0 else Commits(cs[..|cs| - 1]) + if cs[|cs| - 1].Commit? then 1 else 0
  }

  /** All writes of all transactions, issued directly and in order. */
  ghost function WriteAll(txs: seq<seq<Entry>>, blocks: nat, d: Disk): (r: Disk)
    requires AllFit(txs, blocks) && blocks * BLOCK <= |d|
    ensures |r| == |d|
  {
    if txs == [] then d
    else
      assert Fits(txs[|txs| - 1], blocks);
      BlockWrites(txs[|txs| - 1], WriteAll(txs[..|txs| - 1], blocks, d), blocks)
  }

  // ---------------------------------------------------------------- splitting runs

  lemma {:induction false} RunConcat(log: Log, a: seq<Call>, b: seq<Call>)
    ensures Run(log, a + b) == Run(Run(log, a), b)
  {
    if b == [] {
      assert a + b == a;
    } else {
      RunConcat(log, a, b[..|b| - 1]);
      assert (a + b)[..|a + b| - 1] == a + b[..|b| - 1];
    }
  }

  lemma {:induction false} CommitsConcat(a: seq<Call>, b: seq<Call>)
    ensures Commits(a + b) == Commits(a) + Commits(b)
  {
    if b == [] {
      assert a + b == a;
    } else {
      CommitsConcat(a, b[..|b| - 1]);
      assert (a + b)[..|a + b| - 1] == a + b[..|b| - 1];
    }
  }

  lemma {:induction false} RunDiskConcat(log: Log, a: seq<Call>, b: seq<Call>, blocks: nat, d: Disk)
    requires WellFormed(log.entries) && blocks * BLOCK <= |d| && CallsOk(a) && CallsOk(b)
    ensures CallsOk(a + b) && WellFormed(Run(log, a).entries)
    ensures RunDisk(log, a + b, blocks, d) == RunDisk(Run(log, a), b, blocks, RunDisk(log, a, blocks, d))
  {
    KeepsWellFormed(log, a);
    if b == [] {
      assert a + b == a;
    } else {
      RunDiskConcat(log, a, b[..|b| - 1], blocks, d);
      RunConcat(log, a, b[..|b| - 1]);
      assert (a + b)[..|a + b| - 1] == a + b[..|b| - 1];
    }
  }

  // ---------------------------------------------------------------- one transaction

  lemma {:induction false} Appended(tx: seq<Entry>, m: nat, blocks: nat, d: Disk)
    requires Fits(tx, blocks) && m <= |tx| && blocks * BLOCK <= |d|
    ensures CallsOk(AppendCalls(tx)[..m]) && Commits(AppendCalls(tx)[..m]) == 0
    ensures Run(CLEAN, AppendCalls(tx)[..m]) == Log(MAGIC, 0, tx[..m])
    ensures RunDisk(CLEAN, AppendCalls(tx)[..m], blocks, d) == d
  {
    if m == 0 {
    } else {
      Appended(tx, m - 1, blocks, d);
      assert AppendCalls(tx)[..m][..m - 1] == AppendCalls(tx)[..m - 1];
      assert tx[..m] == tx[..m - 1] + [tx[m - 1]];
    }
  }

  /** Replaying a fitting, committed transaction is issuing its writes. */
  lemma ReplayWrites(tx: seq<Entry>, blocks: nat, d: Disk)
    requires Fits(tx, blocks) && blocks * BLOCK <= |d|
    ensures Replay(Log(MAGIC, 1, tx), blocks, d) == BlockWrites(tx, d, blocks)
  {
    assert Reach(tx, blocks) == |tx|;
    assert tx[..|tx|] == tx;
    ReplayIsBlockWrites(Log(MAGIC, 1, tx), blocks, d);
  }

  /** After the calls cs, which made `commits` commits, the journal is log and the disk e. */
  ghost predicate Leaves(cs: seq<Call>, blocks: nat, d: Disk, commits: nat, log: Log, e: Disk) {
    && blocks * BLOCK <= |d| && CallsOk(cs) && Commits(cs) == commits
    && Run(CLEAN, cs) == log && WellFormed(log.entries) && RunDisk(CLEAN, cs, blocks, d) == e
  }

  /** One call more. */
  lemma AddCall(cs: seq<Call>, c: Call, blocks: nat, d: Disk, commits: nat, log: Log, e: Disk)
    requires Leaves(cs, blocks, d, commits, log, e) && CallOk(c)
    ensures Leaves(cs + [c], blocks, d, commits + (if c.Commit? then 1 else 0), Step(log, c),
                   if c.Rerun? then Replay(log, blocks, e) else e)
  {
    KeepsWellFormed(CLEAN, cs + [c]);
    assert (cs + [c])[..|cs|] == cs;
  }

  /** The stages of a transaction. */
  lemma Stages(tx: seq<Entry>, blocks: nat, d: Disk)
    requires Fits(tx, blocks) && blocks * BLOCK <= |d|
    ensures var w, full := BlockWrites(tx, d, blocks), Log(MAGIC, 1, tx);
            && Leaves(AppendCalls(tx) + [Commit], blocks, d, 1, full, d)
            && Leaves(AppendCalls(tx) + [Commit] + [Rerun], blocks, d, 1, full, w)
            && Leaves(AppendCalls(tx) + [Commit] + [Rerun] + [Clear], blocks, d, 1, CLEAN, w)
  {
    Appended(tx, |tx|, blocks, d);
    assert AppendCalls(tx)[..|tx|] == AppendCalls(tx) && tx[..|tx|] == tx;
    var full := Log(MAGIC, 1, tx);
    AddCall(AppendCalls(tx), Commit, blocks, d, 0, Log(MAGIC, 0, tx), d);
    AddCall(AppendCalls(tx) + [Commit], Rerun, blocks, d, 1, full, d);
    ReplayWrites(tx, blocks, d);
    AddCall(AppendCalls(tx) + [Commit] + [Rerun], Clear, blocks, d, 1, full, BlockWrites(tx, d, blocks));
  }

  /** A prefix of a transaction's calls is one of those stages. */
  lemma PrefixIsStage(tx: seq<Entry>, m: nat)
    requires m <= |Calls(tx)|
    ensures Calls(tx)[..m] ==
            if m <= |tx| then AppendCalls(tx)[..m]
            else if m == |tx| + 1 then AppendCalls(tx) + [Commit]
            else if m == |tx| + 2 then AppendCalls(tx) + [Commit] + [Rerun]
            else AppendCalls(tx) + [Commit] + [Rerun] + [Clear]
  {
  }

  /** One transaction stopped after m calls and recovered: all of its writes, or none if it was not committed. */
  lemma Stopped(tx: seq<Entry>, m: nat, blocks: nat, d: Disk)
    requires Fits(tx, blocks) && m <= |Calls(tx)| && blocks * BLOCK <= |d|
    ensures CallsOk(Calls(tx)[..m]) && Commits(Calls(tx)[..m]) == if m <= |tx| then 0 else 1
    ensures var log, e := Run(CLEAN, Calls(tx)[..m]), RunDisk(CLEAN, Calls(tx)[..m], blocks, d);
            && WellFormed(log.entries)
            && Replay(log, blocks, e) == (if m <= |tx| then d else BlockWrites(tx, d, blocks))
            && (m == |Calls(tx)| ==> log == CLEAN && e == BlockWrites(tx, d, blocks))
  {
    PrefixIsStage(tx, m);
    if m <= |tx| {
      Appended(tx, m, blocks, d);
    } else {
      Stages(tx, blocks, d);
      ReplayWrites(tx, blocks, d);
      ReplayIdempotent(Log(MAGIC, 1, tx), blocks, d);
    }
  }

  // ---------------------------------------------------------------- all transactions

  /** Without a crash: the disk holds all writes and the journal is clean again. */
  lemma {:induction false} Completed(txs: seq<seq<Entry>>, blocks: nat, d: Disk)
    requires AllFit(txs, blocks) && blocks * BLOCK <= |d|
    ensures Leaves(Program(txs), blocks, d, |txs|, CLEAN, WriteAll(txs, blocks, d))
  {
    if txs == [] {
    } else {
      var init, tx := txs[..|txs| - 1], txs[|txs| - 1];
      assert Fits(tx, blocks);
      Completed(init, blocks, d);
      var before := WriteAll(init, blocks, d);
      Stopped(tx, |Calls(tx)|, blocks, before);
      assert Calls(tx)[..|Calls(tx)|] == Calls(tx);
      Continue(Program(init), Calls(tx), blocks, d, |init|, before);
    }
  }

  /** What further calls do after calls that left a clean journal. */
  lemma Continue(a: seq<Call>, b: seq<Call>, blocks: nat, d: Disk, commits: nat, e: Disk)
    requires Leaves(a, blocks, d, commits, CLEAN, e) && CallsOk(b)
    ensures WellFormed(Run(CLEAN, b).entries)
    ensures Leaves(a + b, blocks, d, commits + Commits(b), Run(CLEAN, b), RunDisk(CLEAN, b, blocks, e))
  {
    KeepsWellFormed(CLEAN, b);
    RunConcat(CLEAN, a, b);
    RunDiskConcat(CLEAN, a, b, blocks, d);
    CommitsConcat(a, b);
  }

  /** A replay after the calls cs gives the disk x. */
  ghost predicate RecoversTo(cs: seq<Call>, blocks: nat, d: Disk, x: Disk) {
    && blocks * BLOCK <= |d| && CallsOk(cs) && WellFormed(Run(CLEAN, cs).entries)
    && Replay(Run(CLEAN, cs), blocks, RunDisk(CLEAN, cs, blocks, d)) == x
  }

  /** A replay after the calls cs leaves the writes of the transactions committed so far. */
  ghost predicate RecoversCommitted(txs: seq<seq<Entry>>, cs: seq<Call>, blocks: nat, d: Disk) {
    && AllFit(txs, blocks) && blocks * BLOCK <= |d| && Commits(cs) <= |txs|
    && RecoversTo(cs, blocks, d, WriteAll(txs[..Commits(cs)], blocks, d))
  }

  lemma MoreTransactions(init: seq<seq<Entry>>, tx: seq<Entry>, cs: seq<Call>, blocks: nat, d: Disk)
    requires RecoversCommitted(init, cs, blocks, d) && Fits(tx, blocks)
    ensures RecoversCommitted(init + [tx], cs, blocks, d)
  {
    assert (init + [tx])[..Commits(cs)] == init[..Commits(cs)];
  }

  /** Stopped inside transaction tx, after the transactions init. */
  lemma StoppedIn(init: seq<seq<Entry>>, tx: seq<Entry>, m: nat, blocks: nat, d: Disk)
    requires AllFit(init, blocks) && Fits(tx, blocks) && m <= |Calls(tx)| && blocks * BLOCK <= |d|
    ensures RecoversCommitted(init + [tx], Program(init) + Calls(tx)[..m], blocks, d)
  {
    var before := WriteAll(init, blocks, d);
    Completed(init, blocks, d);
    Stopped(tx, m, blocks, before);
    var part := Calls(tx)[..m];
    Continue(Program(init), part, blocks, d, |init|, before);
    Pack(init, tx, Program(init) + part, blocks, d, Run(CLEAN, part), RunDisk(CLEAN, part, blocks, before), m > |tx|);
  }

  lemma Pack(init: seq<seq<Entry>>, tx: seq<Entry>, cs: seq<Call>, blocks: nat, d: Disk, log: Log, e: Disk, done: bool)
    requires AllFit(init, blocks) && Fits(tx, blocks)
    requires Leaves(cs, blocks, d, |init| + (if done then 1 else 0), log, e)
    requires var before := WriteAll(init, blocks, d);
             |e| == |d| && Replay(log, blocks, e) == if done then BlockWrites(tx, before, blocks) else before
    ensures RecoversCommitted(init + [tx], cs, blocks, d)
  {
    var txs := init + [tx];
    assert txs[..|init|] == init && txs[..|txs|] == txs && txs[..|txs| - 1] == init;
  }

  lemma {:induction false} Recovered(txs: seq<seq<Entry>>, blocks: nat, d: Disk, n: nat)
    requires AllFit(txs, blocks) && blocks * BLOCK <= |d| && n <= |Program(txs)|
    ensures RecoversCommitted(txs, Program(txs)[..n], blocks, d)
  {
    if txs == [] {
      Completed([], blocks, d);
      assert Program(txs)[..n] == [] && txs[..0] == txs;
    } else {
      var init, tx := txs[..|txs| - 1], txs[|txs| - 1];
      assert Fits(tx, blocks) && txs == init + [tx];
      var m := n - |Program(init)|;
      if m <= 0 {
        Recovered(init, blocks, d, n);
        assert Program(txs)[..n] == Program(init)[..n];
        MoreTransactions(init, tx, Program(init)[..n], blocks, d);
      } else {
        StoppedIn(init, tx, m, blocks, d);
        assert Program(txs)[..n] == Program(init) + Calls(tx)[..m];
      }
    }
  }

  /** Transactions are atomic and durable: stop a program of transactions after any number of calls, or at any byte of
      a replay, let any number of recoveries be interrupted at any byte, and replay: the disk then holds the writes of
      exactly the transactions whose commit was issued, in order. */
  lemma Atomicity(txs: seq<seq<Entry>>, blocks: nat, d: Disk, n: nat, crashes: seq<nat>)
    requires AllFit(txs, blocks) && blocks * BLOCK <= |d| && n <= |Program(txs)|
    ensures var cs := Program(txs)[..n];
            && CallsOk(cs) && Commits(cs) <= |txs| && WellFormed(Run(CLEAN, cs).entries)
            && var log, e := Run(CLEAN, cs), RunDisk(CLEAN, cs, blocks, d);
               Replay(log, blocks, Crashes(log, blocks, e, crashes)) == WriteAll(txs[..Commits(cs)], blocks, d)
  {
    Recovered(txs, blocks, d, n);
    var cs := Program(txs)[..n];
    RepeatedCrashRecovery(Run(CLEAN, cs), blocks, RunDisk(CLEAN, cs, blocks, d), crashes);
  }
}
