/** Whole runs of the virtual file system, from the freshly initialised state. */
module FileHistory {
  import opened Words
  import opened CStrings
  import opened FileModel

  function Run(fs: Fs, ops: seq<Op>): (r: Fs)
    requires Inv(fs)
    ensures Inv(r)
  {
    if ops == [] then fs
    else
      var before := Run(fs, ops[..|ops| - 1]);
      StepRefines(before, ops[|ops| - 1]);
      Step(before, ops[|ops| - 1]).fs
  }

  function RunPaths(a: PathFs, ops: seq<Op>): PathFs {
    if ops == [] then a else StepPath(RunPaths(a, ops[..|ops| - 1]), ops[|ops| - 1]).fs
  }

  /** What the calls return and deliver, one answer per call. */
  datatype Answer = Answer(ret: int, out: seq<byte>)

  function Answers(fs: Fs, ops: seq<Op>): seq<Answer>
    requires Inv(fs)
  {
    if ops == [] then []
    else
      var c := Step(Run(fs, ops[..|ops| - 1]), ops[|ops| - 1]);
      Answers(fs, ops[..|ops| - 1]) + [Answer(c.ret, c.out)]
  }

  function AnswersPaths(a: PathFs, ops: seq<Op>): seq<Answer> {
    if ops == [] then []
    else
      var c := StepPath(RunPaths(a, ops[..|ops| - 1]), ops[|ops| - 1]);
      AnswersPaths(a, ops[..|ops| - 1]) + [Answer(c.ret, c.out)]
  }

  /** Every run: all answers and the final state are those of the path map. */
  lemma {:induction false} RunRefines(fs: Fs, ops: seq<Op>)
    requires Inv(fs)
    ensures Paths(Run(fs, ops)) == RunPaths(Paths(fs), ops)
    ensures Answers(fs, ops) == AnswersPaths(Paths(fs), ops)
  {
    if ops == [] {
    } else {
      RunRefines(fs, ops[..|ops| - 1]);
      StepRefines(Run(fs, ops[..|ops| - 1]), ops[|ops| - 1]);
    }
  }

  lemma InitialPaths()
    ensures Inv(INITIAL) && Paths(INITIAL) == INITIAL_PATHS
  {
    assert Named(INITIAL.files, 1) == map[ROOT := []];
    assert PathBytes(INITIAL.files) == map[ROOT := []];
    assert Cursors(INITIAL) == map[];
  }

  /** The state after the calls ops, from initialisation. */
  function Reached(ops: seq<Op>): (fs: Fs)
    ensures Inv(fs)
  {
    InitialPaths();
    Run(INITIAL, ops)
  }

  /** After any run, any next call returns what the path map says, delivers the bytes the path map says, and
      leaves the state the path map says. */
  lemma EveryCallRefines(ops: seq<Op>, next: Op)
    ensures var a := RunPaths(INITIAL_PATHS, ops);
            && Paths(Reached(ops)) == a
            && Step(Reached(ops), next).ret == StepPath(a, next).ret
            && Step(Reached(ops), next).out == StepPath(a, next).out
            && Inv(Step(Reached(ops), next).fs)
            && Paths(Step(Reached(ops), next).fs) == StepPath(a, next).fs
  {
    InitialPaths();
    RunRefines(INITIAL, ops);
    StepRefines(Reached(ops), next);
  }

  lemma {:induction false} RunPathsInv(ops: seq<Op>)
    ensures PathInv(RunPaths(INITIAL_PATHS, ops))
  {
    if ops == [] {
    } else {
      RunPathsInv(ops[..|ops| - 1]);
      PathInvKept(RunPaths(INITIAL_PATHS, ops[..|ops| - 1]), ops[|ops| - 1]);
    }
  }

  // ---------------------------------------------------------------- where bytes come from

  datatype Cell = Blank | Byte(val: byte)

  /** The byte that op, issued in state a, stores at position i of path p. */
  function Puts(a: PathFs, op: Op, p: Name, i: nat): Cell {
    match op
    case WriteCall(fd, buf) =>
      if Live(a, fd) && a.fds[fd].path == p && a.fds[fd].offset + |buf| <= Limit(p)
         && a.fds[fd].offset <= i < a.fds[fd].offset + |buf|
      then Byte(buf[i - a.fds[fd].offset]) else Blank
    case SeedCall(path, buf) =>
      if path == p && p !in a.bytes && a.vnodes + 1 < MAX_VNODES && |buf| <= EXTENT && i < |buf|
      then Byte(buf[i]) else Blank
    case _ => Blank
  }

  /** The last byte that a run from the initial state stored at position i of path p. */
  function LastPut(ops: seq<Op>, p: Name, i: nat): Cell {
    if ops == [] then Blank
    else
      var init := ops[..|ops| - 1];
      var now := Puts(RunPaths(INITIAL_PATHS, init), ops[|ops| - 1], p, i);
      if now.Byte? then now else LastPut(init, p, i)
  }

  /** The cell at position i of path p in state a. */
  function CellAt(a: PathFs, p: Name, i: nat): Cell {
    if p in a.bytes && i < |a.bytes[p]| then Byte(a.bytes[p][i]) else Blank
  }

  /** A call changes exactly the cells it puts a byte into. */
  lemma StepCell(a: PathFs, op: Op, p: Name, i: nat)
    requires PathInv(a)
    ensures CellAt(StepPath(a, op).fs, p, i) == if Puts(a, op, p, i).Byte? then Puts(a, op, p, i) else CellAt(a, p, i)
  {
    if op.WriteCall? && Live(a, op.fd) && a.fds[op.fd].path == p {
      var c := a.fds[op.fd];
      if i < |Overlay(a.bytes[p], c.offset, op.buf)| { OverlayAt(a.bytes[p], c.offset, op.buf, i); }
    }
  }

  /** File contents are the last bytes written or seeded, at every position of every path, and nothing else. */
  lemma {:induction false} ContentsAreLastPuts(ops: seq<Op>, p: Name, i: nat)
    ensures CellAt(RunPaths(INITIAL_PATHS, ops), p, i) == LastPut(ops, p, i)
  {
    if ops == [] {
    } else {
      var init := ops[..|ops| - 1];
      ContentsAreLastPuts(init, p, i);
      RunPathsInv(init);
      StepCell(RunPaths(INITIAL_PATHS, init), ops[|ops| - 1], p, i);
    }
  }

  /** Every byte a read delivers was put there by an earlier call: the last one that wrote that position. */
  lemma ReadsAreLastPuts(ops: seq<Op>, fd: int, size: nat, j: nat)
    requires j < |Step(Reached(ops), ReadCall(fd, size)).out|
    ensures var a := RunPaths(INITIAL_PATHS, ops);
            && fd in a.fds
            && Byte(Step(Reached(ops), ReadCall(fd, size)).out[j]) == LastPut(ops, a.fds[fd].path, a.fds[fd].offset + j)
  {
    SameOut(ops, fd, size);
    RunContents(ops);
    ReadFrom(RunPaths(INITIAL_PATHS, ops), ops, fd, size, j);
  }

  /** The bytes of a are the last puts of ops. */
  ghost predicate Contents(a: PathFs, ops: seq<Op>) {
    forall p, i {:trigger CellAt(a, p, i)} :: CellAt(a, p, i) == LastPut(ops, p, i)
  }

  lemma RunContents(ops: seq<Op>)
    ensures Contents(RunPaths(INITIAL_PATHS, ops), ops)
  {
    forall p, i ensures CellAt(RunPaths(INITIAL_PATHS, ops), p, i) == LastPut(ops, p, i) {
      ContentsAreLastPuts(ops, p, i);
    }
  }

  lemma ReadFrom(a: PathFs, ops: seq<Op>, fd: int, size: nat, j: nat)
    requires Contents(a, ops) && j < |ReadPath(a, fd, size).out|
    ensures fd in a.fds
    ensures Byte(ReadPath(a, fd, size).out[j]) == LastPut(ops, a.fds[fd].path, a.fds[fd].offset + j)
  {
    ReadCell(a, fd, size, j);
  }

  lemma SameOut(ops: seq<Op>, fd: int, size: nat)
    ensures Step(Reached(ops), ReadCall(fd, size)).out == ReadPath(RunPaths(INITIAL_PATHS, ops), fd, size).out
  {
    EveryCallRefines(ops, ReadCall(fd, size));
  }

  lemma ReadCell(a: PathFs, fd: int, size: nat, j: nat)
    requires j < |ReadPath(a, fd, size).out|
    ensures Live(a, fd)
    ensures Byte(ReadPath(a, fd, size).out[j]) == CellAt(a, a.fds[fd].path, a.fds[fd].offset + j)
  {
  }

  /** In every reachable state each open offset lies within its vnode's bytes, which fit its extent, also when
      other descriptors write the same vnode. */
  lemma ReachableOffsets(ops: seq<Op>, fd: nat)
    ensures var fs := Reached(ops);
            && 1 <= |fs.files| <= MAX_VNODES
            && (Usable(fs, fd) ==>
                  var s := fs.fds[fd];
                  s.node < |fs.files| && s.offset <= |fs.files[s.node].bytes| <= Capacity(s.node))
  {
    var fs := Reached(ops);
    assert Usable(fs, fd) ==> SlotInv(fs.files, fs.fds[fd]);
  }

  /** A failing open leaves everything as it was, except in one case: it created the vnode and then
      found no descriptor. */
  lemma FailedOpen(a: PathFs, path: Name, flags: nat)
    requires OpenPath(a, path, flags).ret < 0
    ensures OpenPath(a, path, flags).fs == a <==>
            !(path !in a.bytes && Creates(flags) && a.vnodes + 1 < MAX_VNODES && LowestFree(a.fds.Keys, 0) == MAX_FD)
  {
    assert path in a.bytes[path := []];
  }

  /** A failing seed leaves everything as it was, except in one case: the vnode was free and the contents too long. */
  lemma FailedSeed(a: PathFs, path: Name, buf: seq<byte>)
    requires SeedPath(a, path, buf).ret < 0
    ensures SeedPath(a, path, buf).fs == a <==> !(a.vnodes + 1 < MAX_VNODES && |buf| > EXTENT)
  {
  }

  // ---------------------------------------------------------------- the two cases in actual runs

  /** The root directory opened n times. */
  function Opens(n: nat): (ops: seq<Op>)
    ensures |ops| == n
  {
    if n == 0 then [] else Opens(n - 1) + [OpenCall(ROOT, 0)]
  }

  /** Only the root directory exists, and the lowest n descriptors are open. */
  ghost predicate RootOnly(a: PathFs, n: nat) {
    a.bytes == map[ROOT := []] && a.vnodes == 0 && forall fd: nat :: fd in a.fds <==> fd < n
  }

  lemma LowestIs(fds: set<nat>, n: nat)
    requires n <= MAX_FD && forall fd: nat :: fd in fds <==> fd < n
    ensures LowestFree(fds, 0) == n
  {
    var r := LowestFree(fds, 0);
    assert r > n ==> n in fds;
  }

  lemma OpenRoot(a: PathFs, n: nat)
    requires n < MAX_FD && RootOnly(a, n)
    ensures RootOnly(StepPath(a, OpenCall(ROOT, 0)).fs, n + 1)
  {
    LowestIs(a.fds.Keys, n);
    OpenPathOld(a, ROOT, 0);
  }

  lemma {:induction false} AfterOpens(n: nat)
    requires n <= MAX_FD
    ensures RootOnly(RunPaths(INITIAL_PATHS, Opens(n)), n)
  {
    if n == 0 {
    } else {
      AfterOpens(n - 1);
      assert Opens(n)[..n - 1] == Opens(n - 1);
      OpenRoot(RunPaths(INITIAL_PATHS, Opens(n - 1)), n - 1);
    }
  }

  /** What the calls of FailedOpenCreates do on the path map. */
  lemma CreateWhenFull(a: PathFs, n: nat, p: Name)
    requires n == MAX_FD && RootOnly(a, n) && p != ROOT
    ensures var c := StepPath(a, OpenCall(p, 0x100));
            && c.ret == ENFILE && c.fs.bytes == map[ROOT := [], p := []]
            && StepPath(StepPath(a, CloseCall(0)).fs, OpenCall(p, 0)).ret == ENOENT
            && StepPath(StepPath(c.fs, CloseCall(0)).fs, OpenCall(p, 0)).ret == 0
  {
    LowestIs(a.fds.Keys, n);
  }

  /** The same calls behind a run that leaves all descriptors open and only the root directory. */
  lemma CreateAfter(full: seq<Op>, n: nat, p: Name)
    requires n == MAX_FD && RootOnly(RunPaths(INITIAL_PATHS, full), n) && p != ROOT
    ensures p !in Paths(Reached(full)).bytes
    ensures Step(Reached(full), OpenCall(p, 0x100)).ret == ENFILE
    ensures Paths(Reached(full + [OpenCall(p, 0x100)])).bytes == map[ROOT := [], p := []]
    ensures Step(Reached(full + [CloseCall(0)]), OpenCall(p, 0)).ret == ENOENT
    ensures Step(Reached(full + [OpenCall(p, 0x100)] + [CloseCall(0)]), OpenCall(p, 0)).ret == 0
  {
    var create, close, open := OpenCall(p, 0x100), CloseCall(0), OpenCall(p, 0);
    CreateWhenFull(RunPaths(INITIAL_PATHS, full), n, p);
    Same(full, create);
    RunOne(full, create);
    RunOne(full, close);
    RunOne(full + [create], close);
    Same(full + [create], close);
    Same(full + [close], open);
    Same(full + [create] + [close], open);
  }

  lemma Same(ops: seq<Op>, op: Op)
    ensures Paths(Reached(ops)) == RunPaths(INITIAL_PATHS, ops)
    ensures Step(Reached(ops), op).ret == StepPath(RunPaths(INITIAL_PATHS, ops), op).ret
  {
    EveryCallRefines(ops, op);
  }

  /** With all descriptors opened on the root directory, creating p fails and p exists all the same: once a descriptor
      is closed, p opens without being created, which it would not have done before. */
  lemma FailedOpenCreates(p: Name)
    requires p != ROOT
    ensures var full := Opens(MAX_FD);
            && p !in Paths(Reached(full)).bytes
            && Step(Reached(full), OpenCall(p, 0x100)).ret == ENFILE
            && Paths(Reached(full + [OpenCall(p, 0x100)])).bytes == map[ROOT := [], p := []]
            && Step(Reached(full + [CloseCall(0)]), OpenCall(p, 0)).ret == ENOENT
            && Step(Reached(full + [OpenCall(p, 0x100)] + [CloseCall(0)]), OpenCall(p, 0)).ret == 0
  {
    AfterOpens(MAX_FD);
    CreateAfter(Opens(MAX_FD), MAX_FD, p);
  }

  lemma RunOne(ops: seq<Op>, op: Op)
    ensures RunPaths(INITIAL_PATHS, ops + [op]) == StepPath(RunPaths(INITIAL_PATHS, ops), op).fs
  {
    assert (ops + [op])[..|ops|] == ops;
  }

  /** Seeding p with more than its extent holds fails and leaves p as an empty file. */
  lemma FailedSeedCreates(p: Name, buf: seq<byte>)
    requires p != ROOT && |buf| > EXTENT
    ensures Step(Reached([]), SeedCall(p, buf)).ret == ENOSPC
    ensures Paths(Reached([SeedCall(p, buf)])).bytes == map[ROOT := [], p := []]
  {
    EveryCallRefines([], SeedCall(p, buf));
    EveryCallRefines([SeedCall(p, buf)], CloseCall(0));
    assert [SeedCall(p, buf)][..0] == [];
  }
}
