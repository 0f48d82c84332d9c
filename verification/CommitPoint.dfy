/** What the commit call does and does not fix: entries appended behind it are stored and replayed like the others. */
module CommitPoint {
  import opened Words
  import opened BlockDisk
  import opened Journal

  lemma {:induction false} AppendsConcat(a: seq<Call>, b: seq<Call>)
    ensures Appends(a + b) == Appends(a) + Appends(b)
  {
    if b == [] {
      assert a + b == a;
    } else {
      AppendsConcat(a, b[..|b| - 1]);
      assert (a + b)[..|a + b| - 1] == a + b[..|b| - 1];
    }
  }

  lemma {:induction false} NoAppends(cs: seq<Call>)
    ensures Appends(cs) == [] <==> forall i :: 0 <= i < |cs| ==> !cs[i].Append?
  {
    if cs == [] {
    } else {
      NoAppends(cs[..|cs| - 1]);
      assert forall i :: 0 <= i < |cs| - 1 ==> cs[..|cs| - 1][i] == cs[i];
    }
  }

  /** The calls from position n on add nothing to the journal: they append nothing, or it was full before. */
  ghost predicate Settled(since: seq<Call>, n: nat) {
    n <= |since| && (|Appends(since[..n])| >= MAX_ENTRIES || forall i :: n <= i < |since| ==> !since[i].Append?)
  }

  /** The stored entries are those of the first n calls since the reset exactly when the rest is settled. */
  lemma LateAppendsIff(since: seq<Call>, n: nat)
    requires n <= |since|
    ensures Take(Appends(since[..n]), MAX_ENTRIES) <= Take(Appends(since), MAX_ENTRIES)
    ensures Take(Appends(since), MAX_ENTRIES) == Take(Appends(since[..n]), MAX_ENTRIES) <==> Settled(since, n)
  {
    assert since == since[..n] + since[n..];
    AppendsConcat(since[..n], since[n..]);
    TakeConcat(Appends(since[..n]), Appends(since[n..]), MAX_ENTRIES);
    NoLateAppends(since, n);
  }

  lemma NoLateAppends(since: seq<Call>, n: nat)
    requires n <= |since|
    ensures Appends(since[n..]) == [] <==> forall i :: n <= i < |since| ==> !since[i].Append?
  {
    NoAppends(since[n..]);
    assert forall i :: n <= i < |since| ==> since[i] == since[n..][i - n];
  }

  lemma TakeConcat<T>(x: seq<T>, y: seq<T>, m: nat)
    ensures Take(x, m) <= Take(x + y, m)
    ensures Take(x + y, m) == Take(x, m) <==> |x| >= m || y == []
  {
    assert |x| < m && y != [] ==> |Take(x + y, m)| > |Take(x, m)|;
  }

  /** How many calls it takes to reach the last Commit, that call included. */
  function LastCommit(since: seq<Call>): (n: nat)
    requires Commit in since
    ensures 0 < n <= |since| && since[n - 1] == Commit
    ensures Commit !in since[n..]
  {
    if since[|since| - 1] == Commit then |since|
    else
      assert since == since[..|since| - 1] + [since[|since| - 1]];
      var n := LastCommit(since[..|since| - 1]);
      assert since[n..] == since[..|since| - 1][n..] + [since[|since| - 1]];
      n
  }

  /** The journal as it stood at the last Commit. */
  function AtCommit(since: seq<Call>): Log
    requires Commit in since
  {
    Log(MAGIC, 1, Take(Appends(since[..LastCommit(since)]), MAX_ENTRIES))
  }

  lemma {:induction false} AllValid(cs: seq<Call>)
    requires CallsOk(cs)
    ensures WellFormed(Appends(cs)) && forall i :: 0 <= i < |Appends(cs)| ==> Appends(cs)[i].valid
  {
    if cs == [] {
    } else {
      AllValid(cs[..|cs| - 1]);
    }
  }

  /** With valid entries only, each contributes one block of byte stores. */
  lemma {:induction false} StoresLength(es: seq<Entry>)
    requires WellFormed(es) && forall i :: 0 <= i < |es| ==> es[i].valid
    ensures |Stores(es)| == |es| * BLOCK
  {
    if es == [] {
    } else {
      StoresLength(es[..|es| - 1]);
    }
  }

  /** Replay reaches equally far in a journal and in a longer one, up to the shorter one's end. */
  lemma ReachPrefix(es: seq<Entry>, m: nat, blocks: nat)
    requires m <= |es|
    ensures Reach(es[..m], blocks) == Min(m, Reach(es, blocks))
  {
    var r, q := Reach(es, blocks), Reach(es[..m], blocks);
    assert forall i :: 0 <= i < m ==> es[..m][i] == es[i];
    assert r < m ==> Bad(es[..m][r], blocks);
    assert q < m ==> Bad(es[q], blocks);
  }

  /** Two active journals of valid entries, one a prefix of the other, make the same byte stores exactly when replay
      of the longer one stops within the shorter one. */
  lemma SameStoresIff(long: Log, short: Log, blocks: nat)
    requires Active(long) && Active(short) && short.entries <= long.entries && WellFormed(long.entries)
    requires forall i :: 0 <= i < |long.entries| ==> long.entries[i].valid
    ensures ReplayStores(long, blocks) == ReplayStores(short, blocks) <==>
            Reach(long.entries, blocks) <= |short.entries|
  {
    var es, m := long.entries, |short.entries|;
    var r := Reach(es, blocks);
    assert short.entries == es[..m];
    ReachPrefix(es, m, blocks);
    assert short.entries[..Min(m, r)] == es[..Min(m, r)];
    StoresLength(es[..r]);
    StoresLength(es[..Min(m, r)]);
  }

  lemma {:induction false} SinceOk(cs: seq<Call>)
    requires CallsOk(cs)
    ensures CallsOk(SinceReset(cs))
  {
    if cs == [] {
    } else {
      SinceOk(cs[..|cs| - 1]);
    }
  }

  /** Does replay apply what was committed, no more? In every run with a commit since the last reset, the byte stores of
      a replay are those of the journal at the last commit exactly when the calls behind it are settled or replay
      stops at a bad target before it reaches what they added; and if they are settled, so are disk and status, for
      every disk. */
  lemma ReplayIsCommittedIff(log: Log, cs: seq<Call>, blocks: nat)
    requires CallsOk(cs)
    requires Commit in SinceReset([Init] + cs)
    ensures var since, after := SinceReset([Init] + cs), Run(log, [Init] + cs);
            && (ReplayStores(after, blocks) == ReplayStores(AtCommit(since), blocks) <==>
                Settled(since, LastCommit(since)) || Reach(after.entries, blocks) <= |AtCommit(since).entries|)
    ensures var since, after := SinceReset([Init] + cs), Run(log, [Init] + cs);
            Settled(since, LastCommit(since)) ==>
              && Status(after, blocks) == Status(AtCommit(since), blocks)
              && WellFormed(after.entries) && after.entries == AtCommit(since).entries
              && forall d: Disk :: blocks * BLOCK <= |d| ==>
                   Replay(after, blocks, d) == Replay(AtCommit(since), blocks, d)
  {
    var since, after := SinceReset([Init] + cs), Run(log, [Init] + cs);
    RunHistory(log, cs);
    SinceOk([Init] + cs);
    AllValid(since);
    LateAppendsIff(since, LastCommit(since));
    SameStoresIff(after, AtCommit(since), blocks);
    if Settled(since, LastCommit(since)) {
      forall d: Disk | blocks * BLOCK <= |d| ensures Replay(after, blocks, d) == Replay(AtCommit(since), blocks, d) {
        assert ReplayStores(after, blocks) == ReplayStores(AtCommit(since), blocks);
      }
    }
  }

  /** The data that es leaves in block b: None when no entry names it. */
  datatype Last = None | Data(bytes: seq<byte>)

  function LastData(es: seq<Entry>, b: nat): Last {
    var k := LastFor(es, b);
    if k < |es| then Data(es[k].data) else None
  }

  function Applied(log: Log, blocks: nat): seq<Entry> {
    log.entries[..Reach(log.entries, blocks)]
  }

  lemma SameBlocks(d: Disk, e: Disk, blocks: nat)
    requires |d| == |e| == blocks * BLOCK
    requires forall b :: 0 <= b < blocks ==> (b + 1) * BLOCK <= |d| && Block(d, b) == Block(e, b)
    ensures d == e
  {
    forall a | 0 <= a < |d| ensures d[a] == e[a] {
      var b := a / BLOCK;
      assert Block(d, b)[a % BLOCK] == d[a] && Block(e, b)[a % BLOCK] == e[a];
    }
  }

  /** On the disk itself: two journals have the same effect on every disk of that many blocks exactly when, block by
      block, the last applied entry carries the same data or neither has one. */
  lemma SameEffectIff(x: Log, y: Log, blocks: nat)
    requires Active(x) && Active(y) && WellFormed(x.entries) && WellFormed(y.entries)
    ensures (forall d: Disk :: |d| == blocks * BLOCK ==> Replay(x, blocks, d) == Replay(y, blocks, d)) <==>
            forall b :: 0 <= b < blocks ==> LastData(Applied(x, blocks), b) == LastData(Applied(y, blocks), b)
  {
    if forall b :: 0 <= b < blocks ==> LastData(Applied(x, blocks), b) == LastData(Applied(y, blocks), b) {
      forall d: Disk | |d| == blocks * BLOCK ensures Replay(x, blocks, d) == Replay(y, blocks, d) {
        forall b | 0 <= b < blocks
          ensures (b + 1) * BLOCK <= |d| && Block(Replay(x, blocks, d), b) == Block(Replay(y, blocks, d), b)
        {
          assert LastData(Applied(x, blocks), b) == LastData(Applied(y, blocks), b);
          BlockAfterReplay(x, blocks, d, b);
          BlockAfterReplay(y, blocks, d, b);
        }
        SameBlocks(Replay(x, blocks, d), Replay(y, blocks, d), blocks);
      }
    } else {
      var b :| 0 <= b < blocks && LastData(Applied(x, blocks), b) != LastData(Applied(y, blocks), b);
      Distinguish(x, y, blocks, b);
    }
  }

  /** The effect of a replay is that of the committed journal, on every disk of that many blocks, exactly when no block
      ends with other data for the entries added behind the commit. */
  lemma EffectIsCommittedIff(log: Log, cs: seq<Call>, blocks: nat)
    requires CallsOk(cs)
    requires Commit in SinceReset([Init] + cs)
    ensures var since, after := SinceReset([Init] + cs), Run(log, [Init] + cs);
            && WellFormed(after.entries) && WellFormed(AtCommit(since).entries)
            && ((forall d: Disk :: |d| == blocks * BLOCK ==>
                   Replay(after, blocks, d) == Replay(AtCommit(since), blocks, d)) <==>
                forall b :: 0 <= b < blocks ==>
                  LastData(Applied(after, blocks), b) == LastData(Applied(AtCommit(since), blocks), b))
  {
    var since, after := SinceReset([Init] + cs), Run(log, [Init] + cs);
    RunHistory(log, cs);
    SinceOk([Init] + cs);
    AllValid(since);
    LateAppendsIff(since, LastCommit(since));
    SameEffectIff(after, AtCommit(since), blocks);
  }

  /** A block that the journals leave with different data is told apart by some disk. */
  lemma Distinguish(x: Log, y: Log, blocks: nat, b: nat)
    requires Active(x) && Active(y) && WellFormed(x.entries) && WellFormed(y.entries) && b < blocks
    requires LastData(Applied(x, blocks), b) != LastData(Applied(y, blocks), b)
    ensures exists d: Disk :: |d| == blocks * BLOCK && Replay(x, blocks, d) != Replay(y, blocks, d)
  {
    var lx, ly := LastData(Applied(x, blocks), b), LastData(Applied(y, blocks), b);
    var data := if lx.Data? then lx.bytes else ly.bytes;
    assert |data| == BLOCK;
    var d := Constant(blocks * BLOCK, if data[0] == 0 then 1 else 0);
    BlockAfterReplay(x, blocks, d, b);
    BlockAfterReplay(y, blocks, d, b);
    assert Block(d, b)[0] == d[b * BLOCK] != data[0];
    assert Block(Replay(x, blocks, d), b) != Block(Replay(y, blocks, d), b);
  }

  /** A run that commits an empty journal and then appends: the entry is stored, and replay writes it to the disk that
      the committed journal leaves alone. */
  lemma AppendBehindCommit(log: Log, t: nat, data: seq<byte>, blocks: nat, d: Disk)
    requires |data| == BLOCK && t < blocks && blocks * BLOCK <= |d|
    ensures var after := Run(log, [Init, Commit, Append(t, data)]);
            && after == Log(MAGIC, 1, [Entry(t, data, true)])
            && Run(log, [Init, Commit]) == Log(MAGIC, 1, [])
            && (t + 1) * BLOCK <= |d|
            && Block(Replay(after, blocks, d), t) == data
            && Replay(Run(log, [Init, Commit]), blocks, d) == d
  {
    var cs := [Init, Commit, Append(t, data)];
    assert cs[..2] == [Init, Commit] && [Init, Commit][..1] == [Init] && [Init][..0] == [];
    assert Run(log, [Init]) == Log(MAGIC, 0, []);
    assert Run(log, [Init, Commit]) == Log(MAGIC, 1, []);
    var after := Run(log, cs);
    var es := [Entry(t, data, true)];
    assert after == Log(MAGIC, 1, es);
    assert es[..0] == [] && es[..1] == es;
    assert Reach(es, blocks) == 1;
    BlockAfterReplay(after, blocks, d, t);
    assert LastFor(es, t) == 0;
  }
}
