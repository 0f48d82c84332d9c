/**
 The virtual file system at two levels of abstraction.

 `Fs` is the vnode list (slot 0 is the root directory) with a table of descriptors that
 point at vnodes by index: what the C structures hold once the shared byte pool is cut into
 extents. `PathFs` is what a caller sees: a map from path to bytes and a map from
 descriptor to (path, offset). Every call is defined at both levels, and Refines* show that
 they agree for all arguments, also when a path was seeded twice.
 */
module FileModel {
  import opened Words
  import opened CStrings
  import opened FirstMatch

  const MAX_FD: nat := 16
  const EXTENT: nat := 256
  const MAX_VNODES: nat := 32

  const OK := 0
  const EINVAL := -1
  const ENOENT := -2
  const ENFILE := -3
  const EBADF := -4
  const ENOSPC := -5

  const ROOT: Name := [47]

  datatype Op =
    | OpenCall(path: Name, flags: nat)
    | ReadCall(fd: int, size: nat)
    | WriteCall(fd: int, buf: seq<byte>)
    | SeekCall(fd: int, delta: int, whence: int)
    | CloseCall(fd: int)
    | SeedCall(path: Name, buf: seq<byte>)

  /** flags & MCS_O_CREAT: bit 8. */
  predicate Creates(flags: nat) {
    flags / 0x100 % 2 == 1
  }

  /** New state, return value, and the bytes delivered to the caller's buffer. */
  datatype Outcome<S> = Outcome(fs: S, ret: int, out: seq<byte>)

  /** was with buf laid over it from position off on. */
  function Overlay(was: seq<byte>, off: nat, buf: seq<byte>): (r: seq<byte>)
    requires off <= |was|
    ensures |r| == if off + |buf| > |was| then off + |buf| else |was|
  {
    was[..off] + buf + (if off + |buf| < |was| then was[off + |buf|..] else [])
  }

  lemma OverlayAt(was: seq<byte>, off: nat, buf: seq<byte>, i: nat)
    requires off <= |was| && i < |Overlay(was, off, buf)|
    ensures Overlay(was, off, buf)[i] == if off <= i < off + |buf| then buf[i - off] else was[i]
  {
  }

  /** The position a seek asks for; Nowhere for an unknown whence. */
  datatype Position = At(pos: int) | Nowhere

  function SeekTo(offset: nat, size: nat, delta: int, whence: int): (r: Position) {
    if whence == 0 then At(delta)
    else if whence == 1 then At(offset + delta)
    else if whence == 2 then At(size + delta)
    else Nowhere
  }

  // ---------------------------------------------------------------- vnode list

  datatype Entry = Entry(name: Name, bytes: seq<byte>)
  datatype Slot = Closed | Opened(node: nat, offset: nat, flags: nat)
  datatype Fs = Fs(files: seq<Entry>, fds: seq<Slot>)

  /** Where the lookup scan for path stops: the lowest vnode of that name, or |files|. */
  function Find(files: seq<Entry>, path: Name, from: nat := 0): (r: nat)
    requires from <= |files|
    ensures from <= r <= |files|
    ensures r < |files| ==> files[r].name == path
    ensures forall i :: from <= i < r ==> files[i].name != path
    decreases |files| - from
  {
    if from == |files| || files[from].name == path then from else Find(files, path, from + 1)
  }

  ghost predicate IsFirst(files: seq<Entry>, k: nat)
    requires k < |files|
  {
    forall j :: 0 <= j < k ==> files[j].name != files[k].name
  }

  /** data_capacity of the vnode in slot k. */
  function Capacity(k: nat): nat {
    if k == 0 then 0 else EXTENT
  }

  ghost predicate FilesInv(files: seq<Entry>) {
    && 1 <= |files| <= MAX_VNODES
    && files[0].name == ROOT
    && forall k :: 0 <= k < |files| ==> |files[k].bytes| <= Capacity(k)
  }

  /** A descriptor points at the vnode that its path resolves to, within that vnode's bytes. */
  ghost predicate SlotInv(files: seq<Entry>, s: Slot) {
    s.Opened? ==>
      && s.node < |files|
      && IsFirst(files, s.node)
      && s.offset <= |files[s.node].bytes|
  }

  ghost predicate Inv(fs: Fs) {
    && FilesInv(fs.files)
    && |fs.fds| == MAX_FD
    && forall fd :: 0 <= fd < MAX_FD ==> SlotInv(fs.files, fs.fds[fd])
  }

  const INITIAL: Fs := Fs([Entry(ROOT, [])], NoFds(MAX_FD))

  function NoFds(n: nat): (r: seq<Slot>)
    ensures |r| == n && forall i :: 0 <= i < n ==> r[i] == Closed
  {
    if n == 0 then [] else NoFds(n - 1) + [Closed]
  }

  predicate Usable(fs: Fs, fd: int) {
    0 <= fd < |fs.fds| && fs.fds[fd].Opened?
  }

  function OpenList(fs: Fs, path: Name, flags: nat): Outcome<Fs> {
    var k := Find(fs.files, path);
    if k == |fs.files| && !Creates(flags) then Outcome(fs, ENOENT, [])
    else if k == |fs.files| >= MAX_VNODES then Outcome(fs, ENOSPC, [])
    else
      var files := if k == |fs.files| then fs.files + [Entry(path, [])] else fs.files;
      var fd := First(fs.fds, Closed);
      if fd == |fs.fds| then Outcome(Fs(files, fs.fds), ENFILE, [])
      else Outcome(Fs(files, fs.fds[fd := Opened(k, 0, flags)]), fd, [])
  }

  function ReadList(fs: Fs, fd: int, size: nat): Outcome<Fs>
    requires Inv(fs)
  {
    if !Usable(fs, fd) then Outcome(fs, EBADF, [])
    else
      var s := fs.fds[fd];
      var bytes := fs.files[s.node].bytes;
      var n := Min(size, |bytes| - s.offset);
      Outcome(fs.(fds := fs.fds[fd := s.(offset := s.offset + n)]), n, bytes[s.offset..s.offset + n])
  }

  function WriteList(fs: Fs, fd: int, buf: seq<byte>): Outcome<Fs>
    requires Inv(fs)
  {
    if !Usable(fs, fd) then Outcome(fs, EBADF, [])
    else
      var s := fs.fds[fd];
      var e := fs.files[s.node];
      if s.offset + |buf| > Capacity(s.node) then Outcome(fs, ENOSPC, [])
      else
        Outcome(Fs(fs.files[s.node := e.(bytes := Overlay(e.bytes, s.offset, buf))],
                   fs.fds[fd := s.(offset := s.offset + |buf|)]), |buf|, [])
  }

  function SeekList(fs: Fs, fd: int, delta: int, whence: int): Outcome<Fs>
    requires Inv(fs)
  {
    if !Usable(fs, fd) then Outcome(fs, EBADF, [])
    else
      var s := fs.fds[fd];
      var size := |fs.files[s.node].bytes|;
      match SeekTo(s.offset, size, delta, whence)
      case At(p) =>
        if 0 <= p <= size then Outcome(fs.(fds := fs.fds[fd := s.(offset := p)]), p, [])
        else Outcome(fs, EINVAL, [])
      case Nowhere => Outcome(fs, EINVAL, [])
  }

  function CloseList(fs: Fs, fd: int): Outcome<Fs> {
    if 0 <= fd < |fs.fds| then Outcome(fs.(fds := fs.fds[fd := Closed]), OK, []) else Outcome(fs, EBADF, [])
  }

  /** Seeding never looks the path up: it appends a vnode, and leaves it empty when buf is too long. */
  function SeedFiles(files: seq<Entry>, path: Name, buf: seq<byte>): (seq<Entry>, int) {
    if |files| >= MAX_VNODES then (files, ENOSPC)
    else if |buf| > EXTENT then (files + [Entry(path, [])], ENOSPC)
    else (files + [Entry(path, buf)], OK)
  }

  lemma SeedOverlay(files: seq<Entry>, path: Name, buf: seq<byte>)
    ensures var empty := files + [Entry(path, [])];
            var e := empty[|files|];
            empty[|files| := e.(bytes := Overlay(e.bytes, 0, buf))] == files + [Entry(path, buf)]
  {
    assert Overlay([], 0, buf) == buf;
  }

  function SeedList(fs: Fs, path: Name, buf: seq<byte>): Outcome<Fs> {
    var (files, r) := SeedFiles(fs.files, path, buf);
    Outcome(fs.(files := files), r, [])
  }

  function Step(fs: Fs, op: Op): Outcome<Fs>
    requires Inv(fs)
  {
    match op
    case OpenCall(path, flags) => OpenList(fs, path, flags)
    case ReadCall(fd, size) => ReadList(fs, fd, size)
    case WriteCall(fd, buf) => WriteList(fs, fd, buf)
    case SeekCall(fd, delta, whence) => SeekList(fs, fd, delta, whence)
    case CloseCall(fd) => CloseList(fs, fd)
    case SeedCall(path, buf) => SeedList(fs, path, buf)
  }

  // ---------------------------------------------------------------- path map

  datatype Cursor = Cursor(path: Name, offset: nat, flags: nat)

  /** `vnodes` counts the file vnodes ever created: all that a shadowed duplicate leaves behind. */
  datatype PathFs = PathFs(bytes: map<Name, seq<byte>>, vnodes: nat, fds: map<nat, Cursor>)

  const INITIAL_PATHS: PathFs := PathFs(map[ROOT := []], 0, map[])

  function Limit(path: Name): nat {
    if path == ROOT then 0 else EXTENT
  }

  ghost predicate PathInv(a: PathFs) {
    && ROOT in a.bytes
    && (forall p :: p in a.bytes ==> |a.bytes[p]| <= Limit(p))
    && (forall fd :: fd in a.fds ==> fd < MAX_FD && CursorInv(a.bytes, a.fds[fd]))
  }

  predicate CursorInv(bytes: map<Name, seq<byte>>, c: Cursor) {
    c.path in bytes && c.offset <= |bytes[c.path]|
  }

  /** The lowest descriptor not below `from` that is not in use. */
  function LowestFree(fds: set<nat>, from: nat): (r: nat)
    requires from <= MAX_FD
    ensures from <= r <= MAX_FD
    ensures forall fd: nat :: from <= fd < r ==> fd in fds
    ensures r < MAX_FD ==> r !in fds
    decreases MAX_FD - from
  {
    if from == MAX_FD || from !in fds then from else LowestFree(fds, from + 1)
  }

  /** fd is in use; its offset never lies beyond its file, which PathInv turns into "fd in a.fds". */
  predicate Live(a: PathFs, fd: int) {
    0 <= fd && fd in a.fds && CursorInv(a.bytes, a.fds[fd])
  }

  function OpenPath(a: PathFs, path: Name, flags: nat): Outcome<PathFs> {
    if path !in a.bytes && !Creates(flags) then Outcome(a, ENOENT, [])
    else if path !in a.bytes && a.vnodes + 1 >= MAX_VNODES then Outcome(a, ENOSPC, [])
    else
      var b := if path in a.bytes then a else a.(bytes := a.bytes[path := []], vnodes := a.vnodes + 1);
      var fd := LowestFree(a.fds.Keys, 0);
      if fd == MAX_FD then Outcome(b, ENFILE, [])
      else Outcome(b.(fds := b.fds[fd := Cursor(path, 0, flags)]), fd, [])
  }

  function ReadPath(a: PathFs, fd: int, size: nat): Outcome<PathFs> {
    if !Live(a, fd) then Outcome(a, EBADF, [])
    else
      var c := a.fds[fd];
      var bytes := a.bytes[c.path];
      var n := Min(size, |bytes| - c.offset);
      Outcome(a.(fds := a.fds[fd := c.(offset := c.offset + n)]), n, bytes[c.offset..c.offset + n])
  }

  function WritePath(a: PathFs, fd: int, buf: seq<byte>): Outcome<PathFs> {
    if !Live(a, fd) then Outcome(a, EBADF, [])
    else
      var c := a.fds[fd];
      if c.offset + |buf| > Limit(c.path) then Outcome(a, ENOSPC, [])
      else
        var c' := c.(offset := c.offset + |buf|);
        Outcome(Replace(a, fd, c', Overlay(a.bytes[c.path], c.offset, buf)), |buf|, [])
  }

  /** a with a new cursor for fd and new bytes for that cursor's path. */
  function Replace(a: PathFs, fd: nat, c: Cursor, bytes: seq<byte>): PathFs {
    PathFs(a.bytes[c.path := bytes], a.vnodes, a.fds[fd := c])
  }

  function SeekPath(a: PathFs, fd: int, delta: int, whence: int): Outcome<PathFs> {
    if !Live(a, fd) then Outcome(a, EBADF, [])
    else
      var c := a.fds[fd];
      var size := |a.bytes[c.path]|;
      match SeekTo(c.offset, size, delta, whence)
      case At(p) =>
        if 0 <= p <= size then Outcome(a.(fds := a.fds[fd := c.(offset := p)]), p, []) else Outcome(a, EINVAL, [])
      case Nowhere => Outcome(a, EINVAL, [])
  }

  function ClosePath(a: PathFs, fd: int): Outcome<PathFs> {
    if 0 <= fd < MAX_FD then Outcome(a.(fds := a.fds - {fd}), OK, []) else Outcome(a, EBADF, [])
  }

  function SeedPath(a: PathFs, path: Name, buf: seq<byte>): Outcome<PathFs> {
    if a.vnodes + 1 >= MAX_VNODES then Outcome(a, ENOSPC, [])
    else
      var kept := if |buf| > EXTENT then [] else buf;
      var bytes := if path in a.bytes then a.bytes else a.bytes[path := kept];
      Outcome(a.(bytes := bytes, vnodes := a.vnodes + 1), if |buf| > EXTENT then ENOSPC else OK, [])
  }

  function StepPath(a: PathFs, op: Op): Outcome<PathFs> {
    match op
    case OpenCall(path, flags) => OpenPath(a, path, flags)
    case ReadCall(fd, size) => ReadPath(a, fd, size)
    case WriteCall(fd, buf) => WritePath(a, fd, buf)
    case SeekCall(fd, delta, whence) => SeekPath(a, fd, delta, whence)
    case CloseCall(fd) => ClosePath(a, fd)
    case SeedCall(path, buf) => SeedPath(a, path, buf)
  }

  lemma PathInvCursor(a: PathFs, fd: nat, c: Cursor)
    requires PathInv(a) && fd < MAX_FD && CursorInv(a.bytes, c)
    ensures PathInv(a.(fds := a.fds[fd := c]))
  {
  }

  /** New bytes for a path, no shorter than its old ones. */
  lemma PathInvBytes(a: PathFs, path: Name, bytes: seq<byte>, vnodes: nat)
    requires PathInv(a) && |bytes| <= Limit(path) && (path in a.bytes ==> |a.bytes[path]| <= |bytes|)
    ensures PathInv(a.(bytes := a.bytes[path := bytes], vnodes := vnodes))
  {
    var b := a.(bytes := a.bytes[path := bytes], vnodes := vnodes);
    forall fd | fd in b.fds ensures CursorInv(b.bytes, b.fds[fd]) {
      assert CursorInv(a.bytes, a.fds[fd]);
    }
  }

  lemma PathInvOpen(a: PathFs, path: Name, flags: nat)
    requires PathInv(a)
    ensures PathInv(OpenPath(a, path, flags).fs)
  {
    var b := if path in a.bytes then a else a.(bytes := a.bytes[path := []], vnodes := a.vnodes + 1);
    if path !in a.bytes { PathInvBytes(a, path, [], a.vnodes + 1); }
    var fd := LowestFree(a.fds.Keys, 0);
    if fd < MAX_FD { PathInvCursor(b, fd, Cursor(path, 0, flags)); }
  }

  lemma PathInvWrite(a: PathFs, fd: int, buf: seq<byte>)
    requires PathInv(a)
    ensures PathInv(WritePath(a, fd, buf).fs)
  {
    if Live(a, fd) && a.fds[fd].offset + |buf| <= Limit(a.fds[fd].path) {
      var c := a.fds[fd];
      var bytes := Overlay(a.bytes[c.path], c.offset, buf);
      PathInvBytes(a, c.path, bytes, a.vnodes);
      PathInvCursor(a.(bytes := a.bytes[c.path := bytes]), fd, c.(offset := c.offset + |buf|));
    }
  }

  /** Reading and seeking move one offset. */
  lemma PathInvMove(a: PathFs, fd: int, size: nat, delta: int, whence: int)
    requires PathInv(a)
    ensures PathInv(ReadPath(a, fd, size).fs) && PathInv(SeekPath(a, fd, delta, whence).fs)
  {
    if Live(a, fd) {
      var c := a.fds[fd];
      PathInvCursor(a, fd, c.(offset := c.offset + Min(size, |a.bytes[c.path]| - c.offset)));
      var to := SeekTo(c.offset, |a.bytes[c.path]|, delta, whence);
      if to.At? && 0 <= to.pos <= |a.bytes[c.path]| { PathInvCursor(a, fd, c.(offset := to.pos)); }
    }
  }

  lemma PathInvKept(a: PathFs, op: Op)
    requires PathInv(a)
    ensures PathInv(StepPath(a, op).fs)
  {
    match op
    case OpenCall(path, flags) => PathInvOpen(a, path, flags);
    case ReadCall(fd, size) => PathInvMove(a, fd, size, 0, 0);
    case WriteCall(fd, buf) => PathInvWrite(a, fd, buf);
    case SeekCall(fd, delta, whence) => PathInvMove(a, fd, 0, delta, whence);
    case CloseCall(fd) =>
    case SeedCall(path, buf) =>
      if path !in a.bytes { PathInvBytes(a, path, if |buf| > EXTENT then [] else buf, a.vnodes + 1); }
  }

  // ---------------------------------------------------------------- refinement

  /** A path means the bytes of the first vnode that carries its name. */
  ghost function PathBytes(files: seq<Entry>): map<Name, seq<byte>> {
    Named(files, |files|)
  }

  /** The same for the first n vnodes. */
  ghost function Named(files: seq<Entry>, n: nat): map<Name, seq<byte>>
    requires n <= |files|
  {
    if n == 0 then map[]
    else
      var m, e := Named(files, n - 1), files[n - 1];
      if e.name in m then m else m[e.name := e.bytes]
  }

  lemma {:induction false} ResolvesNamed(files: seq<Entry>, n: nat, p: Name)
    requires n <= |files|
    ensures p in Named(files, n) <==> Find(files, p) < n
    ensures p in Named(files, n) ==> Named(files, n)[p] == files[Find(files, p)].bytes
  {
    if n == 0 {
    } else {
      ResolvesNamed(files, n - 1, p);
    }
  }

  /** The map and the lookup scan agree on every path. */
  lemma Resolves(files: seq<Entry>, p: Name)
    ensures p in PathBytes(files) <==> Find(files, p) < |files|
    ensures p in PathBytes(files) ==> PathBytes(files)[p] == files[Find(files, p)].bytes
  {
    ResolvesNamed(files, |files|, p);
  }

  /** A new vnode is visible exactly when its name was not taken. */
  lemma AppendFile(files: seq<Entry>, e: Entry)
    ensures PathBytes(files + [e]) ==
            if e.name in PathBytes(files) then PathBytes(files) else PathBytes(files)[e.name := e.bytes]
  {
    var longer := files + [e];
    var goal := if e.name in PathBytes(files) then PathBytes(files) else PathBytes(files)[e.name := e.bytes];
    forall p: Name
      ensures p in PathBytes(longer) <==> p in goal
      ensures p in goal ==> PathBytes(longer)[p] == goal[p]
    {
      Resolves(files, p);
      Resolves(longer, p);
      assert forall i :: 0 <= i < |files| ==> longer[i] == files[i];
      assert longer[|files|] == e;
    }
  }

  ghost function Cursors(fs: Fs): map<nat, Cursor>
    requires Inv(fs)
  {
    map fd: nat | fd < MAX_FD && fs.fds[fd].Opened? :: CursorOf(fs.files, fs.fds[fd])
  }

  function CursorOf(files: seq<Entry>, s: Slot): Cursor
    requires s.Opened? && s.node < |files|
  {
    Cursor(files[s.node].name, s.offset, s.flags)
  }

  ghost function Paths(fs: Fs): PathFs
    requires Inv(fs)
  {
    PathFs(PathBytes(fs.files), |fs.files| - 1, Cursors(fs))
  }

  /** The same answer, and states that correspond. */
  ghost predicate Agrees(c: Outcome<Fs>, a: Outcome<PathFs>) {
    Inv(c.fs) && Paths(c.fs) == a.fs && c.ret == a.ret && c.out == a.out
  }

  /** Changing the bytes of the vnode a path resolves to changes that path and no other. */
  lemma UpdateFile(files: seq<Entry>, k: nat, bytes: seq<byte>)
    requires k < |files| && IsFirst(files, k)
    ensures PathBytes(files[k := files[k].(bytes := bytes)]) == PathBytes(files)[files[k].name := bytes]
  {
    var files' := files[k := files[k].(bytes := bytes)];
    var goal := PathBytes(files)[files[k].name := bytes];
    forall p: Name
      ensures p in PathBytes(files') <==> p in goal
      ensures p in goal ==> PathBytes(files')[p] == goal[p]
    {
      Resolves(files, p);
      Resolves(files', p);
      assert forall i :: 0 <= i < |files| ==> files'[i].name == files[i].name;
    }
  }

  lemma LowestAgree(fs: Fs)
    requires Inv(fs)
    ensures First(fs.fds, Closed) == LowestFree(Cursors(fs).Keys, 0)
  {
    var f, g := First(fs.fds, Closed), LowestFree(Cursors(fs).Keys, 0);
    assert g < MAX_FD ==> fs.fds[g] == Closed;
    assert f < MAX_FD ==> f !in Cursors(fs).Keys;
  }

  /** Setting one slot of the table changes one cursor. */
  lemma SetSlot(fs: Fs, fd: nat, s: Slot)
    requires Inv(fs) && fd < MAX_FD && SlotInv(fs.files, s)
    ensures var fs' := fs.(fds := fs.fds[fd := s]);
            && Inv(fs')
            && Cursors(fs') == if s.Opened? then Cursors(fs)[fd := CursorOf(fs.files, s)] else Cursors(fs) - {fd}
  {
    var fs' := fs.(fds := fs.fds[fd := s]);
    forall g | 0 <= g < MAX_FD ensures SlotInv(fs'.files, fs'.fds[g]) {
      assert g != fd ==> fs'.fds[g] == fs.fds[g];
    }
  }

  /** Descriptors survive a change of the vnode list that keeps names and does not shrink a vnode. */
  lemma KeepSlots(fs: Fs, files: seq<Entry>)
    requires Inv(fs) && FilesInv(files) && |fs.files| <= |files|
    requires forall k :: 0 <= k < |fs.files| ==> files[k].name == fs.files[k].name
    requires forall k :: 0 <= k < |fs.files| ==> |fs.files[k].bytes| <= |files[k].bytes|
    ensures Inv(fs.(files := files)) && Cursors(fs.(files := files)) == Cursors(fs)
  {
    forall g | 0 <= g < MAX_FD ensures SlotInv(files, fs.fds[g]) {
      assert SlotInv(fs.files, fs.fds[g]);
    }
  }

  lemma GrowFiles(fs: Fs, e: Entry)
    requires Inv(fs) && |fs.files| < MAX_VNODES && |e.bytes| <= EXTENT
    ensures var fs' := fs.(files := fs.files + [e]);
            && Inv(fs')
            && Cursors(fs') == Cursors(fs)
            && PathBytes(fs'.files) ==
               if e.name in PathBytes(fs.files) then PathBytes(fs.files) else PathBytes(fs.files)[e.name := e.bytes]
  {
    KeepSlots(fs, fs.files + [e]);
    AppendFile(fs.files, e);
  }

  /** Taking the lowest free descriptor for the vnode that a path resolves to. */
  lemma OpenVnode(fs: Fs, k: nat, flags: nat)
    requires Inv(fs) && k < |fs.files| && IsFirst(fs.files, k)
    ensures var fd := LowestFree(Cursors(fs).Keys, 0);
            && fd == First(fs.fds, Closed)
            && (fd < MAX_FD ==>
                  var fs' := fs.(fds := fs.fds[fd := Opened(k, 0, flags)]);
                  Inv(fs') && Cursors(fs') == Cursors(fs)[fd := Cursor(fs.files[k].name, 0, flags)])
  {
    LowestAgree(fs);
    var fd := First(fs.fds, Closed);
    if fd < MAX_FD {
      SetSlot(fs, fd, Opened(k, 0, flags));
    }
  }

  lemma RefinesOpen(fs: Fs, path: Name, flags: nat)
    requires Inv(fs)
    ensures Agrees(OpenList(fs, path, flags), OpenPath(Paths(fs), path, flags))
  {
    Resolves(fs.files, path);
    var k := Find(fs.files, path);
    if k < |fs.files| {
      OpenOld(fs, path, flags);
    } else if Creates(flags) && k < MAX_VNODES {
      OpenNew(fs, path, flags);
    }
  }

  lemma OpenOld(fs: Fs, path: Name, flags: nat)
    requires Inv(fs) && path in PathBytes(fs.files) && Find(fs.files, path) < |fs.files|
    ensures Agrees(OpenList(fs, path, flags), OpenPath(Paths(fs), path, flags))
  {
    OpenVnode(fs, Find(fs.files, path), flags);
    OpenListOld(fs, path, flags);
    OpenPathOld(Paths(fs), path, flags);
  }

  lemma OpenListOld(fs: Fs, path: Name, flags: nat)
    requires Find(fs.files, path) < |fs.files| && |fs.fds| == MAX_FD
    ensures var fd := First(fs.fds, Closed);
            OpenList(fs, path, flags) ==
            if fd == MAX_FD then Outcome(fs, ENFILE, [])
            else Outcome(fs.(fds := fs.fds[fd := Opened(Find(fs.files, path), 0, flags)]), fd, [])
  {
  }

  lemma OpenPathOld(a: PathFs, path: Name, flags: nat)
    requires path in a.bytes
    ensures var fd := LowestFree(a.fds.Keys, 0);
            OpenPath(a, path, flags) ==
            if fd == MAX_FD then Outcome(a, ENFILE, [])
            else Outcome(a.(fds := a.fds[fd := Cursor(path, 0, flags)]), fd, [])
  {
  }

  lemma OpenNew(fs: Fs, path: Name, flags: nat)
    requires Inv(fs) && Creates(flags)
    requires path !in PathBytes(fs.files) && Find(fs.files, path) == |fs.files| < MAX_VNODES
    ensures Agrees(OpenList(fs, path, flags), OpenPath(Paths(fs), path, flags))
  {
    var e, k := Entry(path, []), |fs.files|;
    var fs' := fs.(files := fs.files + [e]);
    GrowFiles(fs, e);
    OpenVnode(fs', k, flags);
    var fd := First(fs.fds, Closed);
    var b := PathFs(PathBytes(fs.files)[path := []], k, Cursors(fs));
    if fd < MAX_FD {
      assert OpenPath(Paths(fs), path, flags).fs == b.(fds := b.fds[fd := Cursor(path, 0, flags)]);
    } else {
      assert OpenPath(Paths(fs), path, flags).fs == b;
    }
  }

  lemma OpenCursor(fs: Fs, fd: nat)
    requires Inv(fs) && Usable(fs, fd)
    ensures fd in Cursors(fs) && Cursors(fs)[fd] == CursorOf(fs.files, fs.fds[fd])
    ensures var e := fs.files[fs.fds[fd].node]; e.name in PathBytes(fs.files) && PathBytes(fs.files)[e.name] == e.bytes
    ensures fs.fds[fd].offset <= |fs.files[fs.fds[fd].node].bytes|
  {
    assert SlotInv(fs.files, fs.fds[fd]);
    Resolves(fs.files, fs.files[fs.fds[fd].node].name);
  }

  lemma ReadListAt(fs: Fs, fd: nat, size: nat)
    requires Inv(fs) && Usable(fs, fd)
    ensures var s := fs.fds[fd];
            var bytes := fs.files[s.node].bytes;
            s.offset <= |bytes| &&
            var n := Min(size, |bytes| - s.offset);
            ReadList(fs, fd, size) ==
            Outcome(fs.(fds := fs.fds[fd := s.(offset := s.offset + n)]), n, bytes[s.offset..s.offset + n])
  {
  }

  lemma ReadAtMost(fs: Fs, fd: int, size: nat)
    requires Inv(fs)
    ensures |ReadList(fs, fd, size).out| <= size
  {
    if Usable(fs, fd) { ReadListAt(fs, fd, size); }
  }

  lemma RefinesRead(fs: Fs, fd: int, size: nat)
    requires Inv(fs)
    ensures Agrees(ReadList(fs, fd, size), ReadPath(Paths(fs), fd, size))
  {
    if Usable(fs, fd) {
      OpenCursor(fs, fd);
      var s := fs.fds[fd];
      var s' := s.(offset := s.offset + Min(size, |fs.files[s.node].bytes| - s.offset));
      SetSlot(fs, fd, s');
      assert ReadList(fs, fd, size).fs == fs.(fds := fs.fds[fd := s']);
      assert ReadPath(Paths(fs), fd, size).fs == Paths(fs).(fds := Cursors(fs)[fd := CursorOf(fs.files, s')]);
    }
  }

  lemma RefinesWrite(fs: Fs, fd: int, buf: seq<byte>)
    requires Inv(fs)
    ensures Agrees(WriteList(fs, fd, buf), WritePath(Paths(fs), fd, buf))
  {
    if Usable(fs, fd) {
      OpenCursor(fs, fd);
      RootIsFirst(fs.files, fs.fds[fd].node);
      assert Limit(fs.files[fs.fds[fd].node].name) == Capacity(fs.fds[fd].node);
      if fs.fds[fd].offset + |buf| <= Capacity(fs.fds[fd].node) {
        WriteFits(fs, fd, buf);
      }
    }
  }

  lemma WriteFits(fs: Fs, fd: nat, buf: seq<byte>)
    requires Inv(fs) && Usable(fs, fd) && fs.fds[fd].offset + |buf| <= Capacity(fs.fds[fd].node)
    requires Limit(fs.files[fs.fds[fd].node].name) == Capacity(fs.fds[fd].node)
    ensures Agrees(WriteList(fs, fd, buf), WritePath(Paths(fs), fd, buf))
  {
    var s := fs.fds[fd];
    var e := fs.files[s.node];
    OpenCursor(fs, fd);
    var bytes, offset := Overlay(e.bytes, s.offset, buf), s.offset + |buf|;
    var fs' := Fs(fs.files[s.node := e.(bytes := bytes)], fs.fds[fd := s.(offset := offset)]);
    WriteThrough(fs, fd, bytes, offset);
    Pack(fs', Replace(Paths(fs), fd, Cursor(e.name, offset, s.flags), bytes), |buf|);
    WritePathFits(Paths(fs), fd, buf, CursorOf(fs.files, s), e.bytes, Outcome(fs', |buf|, []));
    WriteListFits(fs, fd, buf);
  }

  lemma WritePathFits(a: PathFs, fd: nat, buf: seq<byte>, c: Cursor, bytes: seq<byte>, r: Outcome<Fs>)
    requires fd in a.fds && a.fds[fd] == c && c.path in a.bytes && a.bytes[c.path] == bytes
    requires c.offset <= |bytes| && c.offset + |buf| <= Limit(c.path)
    requires Agrees(r, Outcome(Replace(a, fd, Cursor(c.path, c.offset + |buf|, c.flags), Overlay(bytes, c.offset, buf)),
                               |buf|, []))
    ensures Agrees(r, WritePath(a, fd, buf))
  {
  }

  lemma WriteListFits(fs: Fs, fd: nat, buf: seq<byte>)
    requires Inv(fs) && Usable(fs, fd) && fs.fds[fd].offset + |buf| <= Capacity(fs.fds[fd].node)
    ensures var s := fs.fds[fd];
            var e := fs.files[s.node];
            s.offset <= |e.bytes| &&
            WriteList(fs, fd, buf) ==
            Outcome(Fs(fs.files[s.node := e.(bytes := Overlay(e.bytes, s.offset, buf))],
                       fs.fds[fd := s.(offset := s.offset + |buf|)]), |buf|, [])
  {
  }

  /** Replacing the bytes behind an open descriptor and moving its offset. */
  lemma WriteThrough(fs: Fs, fd: nat, bytes: seq<byte>, offset: nat)
    requires Inv(fs) && Usable(fs, fd)
    requires |fs.files[fs.fds[fd].node].bytes| <= |bytes| <= Capacity(fs.fds[fd].node) && offset <= |bytes|
    ensures var s := fs.fds[fd];
            var e := fs.files[s.node];
            var fs' := Fs(fs.files[s.node := e.(bytes := bytes)], fs.fds[fd := s.(offset := offset)]);
            && Inv(fs')
            && Paths(fs') == Replace(Paths(fs), fd, Cursor(e.name, offset, s.flags), bytes)
  {
    var s := fs.fds[fd];
    var files := fs.files[s.node := fs.files[s.node].(bytes := bytes)];
    UpdateFile(fs.files, s.node, bytes);
    KeepSlots(fs, files);
    SetSlot(fs.(files := files), fd, s.(offset := offset));
  }

  lemma Pack(fs: Fs, a: PathFs, n: int)
    requires Inv(fs) && Paths(fs) == a
    ensures Agrees(Outcome(fs, n, []), Outcome(a, n, []))
  {
  }

  lemma RootIsFirst(files: seq<Entry>, k: nat)
    requires FilesInv(files) && k < |files| && IsFirst(files, k)
    ensures k == 0 <==> files[k].name == ROOT
  {
  }

  lemma RefinesSeek(fs: Fs, fd: int, delta: int, whence: int)
    requires Inv(fs)
    ensures Agrees(SeekList(fs, fd, delta, whence), SeekPath(Paths(fs), fd, delta, whence))
  {
    if Usable(fs, fd) {
      OpenCursor(fs, fd);
      var s := fs.fds[fd];
      var to := SeekTo(s.offset, |fs.files[s.node].bytes|, delta, whence);
      if to.At? && 0 <= to.pos <= |fs.files[s.node].bytes| {
        SetSlot(fs, fd, s.(offset := to.pos));
      }
    }
  }

  lemma RefinesClose(fs: Fs, fd: int)
    requires Inv(fs)
    ensures Agrees(CloseList(fs, fd), ClosePath(Paths(fs), fd))
  {
    if 0 <= fd < MAX_FD {
      SetSlot(fs, fd, Closed);
    }
  }

  lemma RefinesSeed(fs: Fs, path: Name, buf: seq<byte>)
    requires Inv(fs)
    ensures Agrees(SeedList(fs, path, buf), SeedPath(Paths(fs), path, buf))
  {
    if |fs.files| < MAX_VNODES {
      GrowFiles(fs, Entry(path, if |buf| > EXTENT then [] else buf));
    }
  }

  /** One call: the vnode list does exactly what the path map says, and keeps the invariant. */
  lemma StepRefines(fs: Fs, op: Op)
    requires Inv(fs)
    ensures Agrees(Step(fs, op), StepPath(Paths(fs), op))
  {
    match op
    case OpenCall(path, flags) => RefinesOpen(fs, path, flags);
    case ReadCall(fd, size) => RefinesRead(fs, fd, size);
    case WriteCall(fd, buf) => RefinesWrite(fs, fd, buf);
    case SeekCall(fd, delta, whence) => RefinesSeek(fs, fd, delta, whence);
    case CloseCall(fd) => RefinesClose(fs, fd);
    case SeedCall(path, buf) => RefinesSeed(fs, path, buf);
  }

  lemma StepInv(fs: Fs, op: Op)
    requires Inv(fs)
    ensures Inv(Step(fs, op).fs)
  {
    StepRefines(fs, op);
  }
}
