/**
 What each call of the virtual file system gives its caller, said of the map from path to bytes and proved for every
 state; FileHistory carries it over to the vnode list and Vfs to the arrays.
 */
module FileLaws {
  import opened Words
  import opened CStrings
  import opened FileModel
  import opened FileHistory

  // ---------------------------------------------------------------- open

  /** The creation flag is bit 8 of the flag word; the other bits make no difference. */
  lemma CreatesIsBit8(low: nat, high: nat)
    requires low < 0x100
    ensures Creates(low + 0x100 + 0x200 * high) && !Creates(low + 0x200 * high)
  {
    assert (low + 0x100 + 0x200 * high) / 0x100 == 1 + 2 * high;
    assert (low + 0x200 * high) / 0x100 == 2 * high;
  }

  /** Creating a path with any further flags, from initialisation: descriptor 0 and an empty file. Without the creation
      flag the path is not found and nothing changes. */
  lemma CreatingOpen(p: Name, low: nat, high: nat)
    requires p != ROOT && low < 0x100
    ensures Step(Reached([]), OpenCall(p, low + 0x100 + 0x200 * high)).ret == 0
    ensures Paths(Reached([OpenCall(p, low + 0x100 + 0x200 * high)])).bytes == map[ROOT := [], p := []]
    ensures Step(Reached([]), OpenCall(p, low + 0x200 * high)).ret == -2
    ensures Paths(Reached([OpenCall(p, low + 0x200 * high)])) == INITIAL_PATHS
  {
    CreatesIsBit8(low, high);
    FirstOpen(p, low + 0x100 + 0x200 * high);
    FirstOpen(p, low + 0x200 * high);
  }

  lemma FirstOpen(p: Name, flags: nat)
    requires p != ROOT
    ensures Step(Reached([]), OpenCall(p, flags)).ret == if Creates(flags) then 0 else -2
    ensures Paths(Reached([OpenCall(p, flags)])) ==
            if Creates(flags) then PathFs(map[ROOT := [], p := []], 1, map[0 := Cursor(p, 0, flags)]) else INITIAL_PATHS
  {
    Same([], OpenCall(p, flags));
    Same([OpenCall(p, flags)], CloseCall(0));
    RunOne([], OpenCall(p, flags));
    assert [] + [OpenCall(p, flags)] == [OpenCall(p, flags)];
    LowestIs({}, 0);
  }

  /** A successful open takes the lowest free descriptor, puts it at the start of the path and creates the path as an
      empty file if need be. */
  lemma OpenGives(a: PathFs, path: Name, flags: nat)
    requires OpenPath(a, path, flags).ret >= 0
    ensures var c := OpenPath(a, path, flags);
            && c.ret < 16 && c.ret !in a.fds && (forall g: nat :: g < c.ret ==> g in a.fds)
            && c.fs.fds == a.fds[c.ret := Cursor(path, 0, flags)]
            && c.fs.bytes == (if path in a.bytes then a.bytes else a.bytes[path := []])
            && c.fs.vnodes == (if path in a.bytes then a.vnodes else a.vnodes + 1)
  {
  }

  /** Which error an open answers: no such path, no vnode left, no descriptor left. */
  lemma OpenFails(a: PathFs, path: Name, flags: nat)
    ensures OpenPath(a, path, flags).ret >= 0 || OpenPath(a, path, flags).ret in {-2, -5, -3}
    ensures OpenPath(a, path, flags).ret == -2 <==> path !in a.bytes && !Creates(flags)
    ensures OpenPath(a, path, flags).ret == -5 <==> path !in a.bytes && Creates(flags) && a.vnodes >= 31
    ensures OpenPath(a, path, flags).ret == -3 <==>
            && (path in a.bytes || (Creates(flags) && a.vnodes < 31))
            && forall g: nat :: g < 16 ==> g in a.fds
  {
    var fd := LowestFree(a.fds.Keys, 0);
    assert fd < MAX_FD ==> fd !in a.fds;
  }

  // ---------------------------------------------------------------- read, write, seek

  /** Every call on a descriptor that is not open answers EBADF and changes nothing. */
  lemma NotOpen(a: PathFs, fd: int, size: nat, buf: seq<byte>, delta: int, whence: int)
    requires fd < 0 || fd !in a.fds
    ensures ReadPath(a, fd, size) == Outcome(a, -4, [])
    ensures WritePath(a, fd, buf) == Outcome(a, -4, [])
    ensures SeekPath(a, fd, delta, whence) == Outcome(a, -4, [])
  {
  }

  /** a with descriptor fd moved to position pos. */
  function Moved(a: PathFs, fd: nat, pos: nat): PathFs
    requires fd in a.fds
  {
    a.(fds := a.fds[fd := a.fds[fd].(offset := pos)])
  }

  /** A read delivers the bytes from the offset on, as many as asked for or up to the end of the file, returns their
      number and moves the offset behind them. */
  lemma ReadDelivers(a: PathFs, fd: nat, size: nat)
    requires PathInv(a) && fd in a.fds
    ensures var c, o := ReadPath(a, fd, size), a.fds[fd].offset;
            && c.ret == |c.out| <= size && o + |c.out| <= |a.bytes[a.fds[fd].path]|
            && (|c.out| < size ==> o + |c.out| == |a.bytes[a.fds[fd].path]|)
            && c.out == a.bytes[a.fds[fd].path][o..o + |c.out|]
            && c.fs == Moved(a, fd, o + |c.out|)
  {
  }

  lemma Adjacent(bytes: seq<byte>, o: nat, k: nat, l: nat)
    requires o + k + l <= |bytes|
    ensures bytes[o..o + k] + bytes[o + k..o + k + l] == bytes[o..o + k + l]
  {
  }

  lemma ReadIs(a: PathFs, fd: nat, path: Name, o: nat, bytes: seq<byte>, size: nat)
    requires fd in a.fds && a.fds[fd].path == path && a.fds[fd].offset == o <= |bytes|
    requires path in a.bytes && a.bytes[path] == bytes
    ensures var n := Min(size, |bytes| - o);
            ReadPath(a, fd, size) == Outcome(Moved(a, fd, o + n), n, bytes[o..o + n])
  {
  }

  /** Two reads in a row deliver what one read of the joint size delivers. */
  lemma ReadSplit(a: PathFs, fd: nat, m: nat, n: nat)
    requires PathInv(a) && fd in a.fds
    ensures var c := ReadPath(a, fd, m);
            var c' := ReadPath(c.fs, fd, n);
            c.out + c'.out == ReadPath(a, fd, m + n).out && c'.fs == ReadPath(a, fd, m + n).fs
  {
    assert CursorInv(a.bytes, a.fds[fd]);
    ReadSplitAt(a, fd, a.fds[fd].path, a.fds[fd].offset, a.bytes[a.fds[fd].path], m, n);
  }

  lemma ReadSplitAt(a: PathFs, fd: nat, path: Name, o: nat, bytes: seq<byte>, m: nat, n: nat)
    requires fd in a.fds && a.fds[fd].path == path && a.fds[fd].offset == o <= |bytes|
    requires path in a.bytes && a.bytes[path] == bytes
    ensures var k := Min(m, |bytes| - o);
            var l := Min(n, |bytes| - o - k);
            && ReadPath(a, fd, m) == Outcome(Moved(a, fd, o + k), k, bytes[o..o + k])
            && ReadPath(Moved(a, fd, o + k), fd, n) == Outcome(Moved(a, fd, o + k + l), l, bytes[o + k..o + k + l])
            && ReadPath(a, fd, m + n) ==
               Outcome(Moved(a, fd, o + k + l), k + l, bytes[o..o + k] + bytes[o + k..o + k + l])
  {
    var k := Min(m, |bytes| - o);
    var l := Min(n, |bytes| - o - k);
    ReadIs(a, fd, path, o, bytes, m);
    ReadIs(Moved(a, fd, o + k), fd, path, o + k, bytes, n);
    MovedTwice(a, fd, o + k, o + k + l);
    ReadIs(a, fd, path, o, bytes, m + n);
    MinSplit(m, n, |bytes| - o);
    Adjacent(bytes, o, k, l);
  }

  lemma MinSplit(m: nat, n: nat, all: nat)
    ensures Min(m + n, all) == Min(m, all) + Min(n, all - Min(m, all))
  {
  }

  lemma MovedTwice(a: PathFs, fd: nat, x: nat, y: nat)
    requires fd in a.fds
    ensures Moved(Moved(a, fd, x), fd, y) == Moved(a, fd, y)
  {
  }

  /** Seeking to pos and reading delivers the bytes from there on. */
  lemma SeekRead(a: PathFs, fd: nat, pos: nat, size: nat)
    requires PathInv(a) && fd in a.fds && pos <= |a.bytes[a.fds[fd].path]|
    ensures var s := SeekPath(a, fd, pos, 0);
            var c, n := ReadPath(s.fs, fd, size), Min(size, |a.bytes[a.fds[fd].path]| - pos);
            && s.ret == pos && c.ret == n && c.out == a.bytes[a.fds[fd].path][pos..pos + n]
            && c.fs == Moved(a, fd, pos + n)
  {
    SeekMoves(a, fd, pos, 0);
    PathInvMove(a, fd, 0, pos, 0);
    ReadDelivers(SeekPath(a, fd, pos, 0).fs, fd, size);
  }

  /** A write that would pass the end of the extent (256 bytes, none for the root directory) is refused and changes
      nothing; otherwise it returns the number of bytes, moves the offset behind them and changes no other file. */
  lemma WriteGives(a: PathFs, fd: nat, buf: seq<byte>)
    requires PathInv(a) && fd in a.fds
    ensures var c, o, path := WritePath(a, fd, buf), a.fds[fd].offset, a.fds[fd].path;
            if o + |buf| > (if path == ROOT then 0 else 256) then c == Outcome(a, -5, [])
            else
              && c.ret == |buf| && c.fs.fds == Moved(a, fd, o + |buf|).fds
              && c.fs.bytes.Keys == a.bytes.Keys && c.fs.vnodes == a.vnodes
              && (forall p :: p in a.bytes && p != path ==> c.fs.bytes[p] == a.bytes[p])
              && |c.fs.bytes[path]| == Max(o + |buf|, |a.bytes[path]|)
              && c.fs.bytes[path][o..o + |buf|] == buf
  {
  }

  /** What was written is what seeking back and reading returns. */
  lemma WriteReadsBack(a: PathFs, fd: nat, buf: seq<byte>)
    requires PathInv(a) && fd in a.fds && WritePath(a, fd, buf).ret >= 0
    ensures var w, o := WritePath(a, fd, buf).fs, a.fds[fd].offset;
            SeekPath(w, fd, o, 0).ret == o && ReadPath(SeekPath(w, fd, o, 0).fs, fd, |buf|).out == buf
  {
    WriteGives(a, fd, buf);
    PathInvWrite(a, fd, buf);
    SeekRead(WritePath(a, fd, buf).fs, fd, a.fds[fd].offset, |buf|);
  }

  function Max(a: nat, b: nat): nat {
    if a < b then b else a
  }

  lemma OverlayTwice(was: seq<byte>, o: nat, x: seq<byte>, y: seq<byte>)
    requires o <= |was|
    ensures Overlay(Overlay(was, o, x), o + |x|, y) == Overlay(was, o, x + y)
  {
    var one, two := Overlay(Overlay(was, o, x), o + |x|, y), Overlay(was, o, x + y);
    forall i | 0 <= i < |one| ensures one[i] == two[i] {
      OverlayAt(Overlay(was, o, x), o + |x|, y, i);
      if i < |Overlay(was, o, x)| { OverlayAt(was, o, x, i); }
      OverlayAt(was, o, x + y, i);
    }
  }

  lemma WriteIs(a: PathFs, fd: nat, c: Cursor, bytes: seq<byte>, buf: seq<byte>)
    requires fd in a.fds && a.fds[fd] == c && c.path in a.bytes && a.bytes[c.path] == bytes
    requires c.offset <= |bytes| && c.offset + |buf| <= Limit(c.path)
    ensures WritePath(a, fd, buf) ==
            Outcome(Replace(a, fd, c.(offset := c.offset + |buf|), Overlay(bytes, c.offset, buf)), |buf|, [])
  {
  }

  /** Two writes in a row store what one write of the joined bytes stores, if that fits. */
  lemma WriteSplit(a: PathFs, fd: nat, x: seq<byte>, y: seq<byte>)
    requires PathInv(a) && fd in a.fds && a.fds[fd].offset + |x| + |y| <= Limit(a.fds[fd].path)
    ensures var c := WritePath(a, fd, x);
            var c' := WritePath(c.fs, fd, y);
            c.ret + c'.ret == |x + y| && c'.fs == WritePath(a, fd, x + y).fs
  {
    var c := a.fds[fd];
    assert CursorInv(a.bytes, c);
    var was := a.bytes[c.path];
    WriteIs(a, fd, c, was, x);
    WriteIs(a, fd, c, was, x + y);
    var c1, one := c.(offset := c.offset + |x|), Overlay(was, c.offset, x);
    var b := Replace(a, fd, c1, one);
    WriteIs(b, fd, c1, one, y);
    OverlayTwice(was, c.offset, x, y);
    var c2, two := c.(offset := c.offset + |x + y|), Overlay(was, c.offset, x + y);
    assert Replace(b, fd, c2, two) == Replace(a, fd, c2, two);
  }

  /** The three kinds of seek, and every other. */
  lemma SeekMoves(a: PathFs, fd: nat, delta: int, whence: int)
    requires PathInv(a) && fd in a.fds
    ensures var size := |a.bytes[a.fds[fd].path]|;
            var from := if whence == 0 then 0 else if whence == 1 then a.fds[fd].offset else size;
            SeekPath(a, fd, delta, whence) ==
            if 0 <= whence <= 2 && 0 <= from + delta <= size then Outcome(Moved(a, fd, from + delta), from + delta, [])
            else Outcome(a, -1, [])
  {
  }

  // ---------------------------------------------------------------- close, seed, sessions

  /** Closing frees the descriptor, open or not, and touches nothing else; a descriptor out of range is refused. */
  lemma CloseFrees(a: PathFs, fd: int)
    ensures var c := ClosePath(a, fd);
            if 0 <= fd < 16 then
              && c.ret == 0 && fd !in c.fs.fds && c.fs.bytes == a.bytes && c.fs.vnodes == a.vnodes
              && forall g :: g in a.fds && g != fd ==> g in c.fs.fds && c.fs.fds[g] == a.fds[g]
            else c == Outcome(a, -4, [])
  {
  }

  /** Seeding a free name puts the contents there, up to 256 bytes. */
  lemma SeedGives(a: PathFs, path: Name, buf: seq<byte>)
    requires path !in a.bytes
    ensures var c := SeedPath(a, path, buf);
            && (c.ret == 0 <==> a.vnodes < 31 && |buf| <= 256) && (c.ret != 0 ==> c.ret == -5)
            && (c.ret == 0 ==> c.fs.bytes == a.bytes[path := buf]) && c.fs.fds == a.fds
  {
  }

  /** What follows a creating open: writing buf, going back, reading and closing answer as expected and leave the state
      after. */
  ghost predicate Answered(b: PathFs, fd: nat, buf: seq<byte>, size: nat, after: PathFs) {
    var w := WritePath(b, fd, buf);
    var s := SeekPath(w.fs, fd, 0, 0);
    var r := ReadPath(s.fs, fd, size);
    && w.ret == |buf| && s.ret == 0 && r.ret == Min(size, |buf|) && r.out == buf[..Min(size, |buf|)]
    && ClosePath(r.fs, fd) == Outcome(after, 0, [])
  }

  /** A session as a program runs it, from any state with a free vnode and a free descriptor: create a file, write it,
      go back, read it, close it. Every answer is what the caller expects. */
  lemma Session(a: PathFs, p: Name, flags: nat, buf: seq<byte>, size: nat)
    requires PathInv(a) && p !in a.bytes && Creates(flags) && a.vnodes < 31 && |buf| <= 256
    requires exists g: nat :: g < 16 && g !in a.fds
    ensures var c := OpenPath(a, p, flags);
            && 0 <= c.ret < 16 && c.ret !in a.fds
            && Answered(c.fs, c.ret, buf, size, PathFs(a.bytes[p := buf], a.vnodes + 1, a.fds))
  {
    OpenFails(a, p, flags);
    OpenGives(a, p, flags);
    PathInvOpen(a, p, flags);
    SessionFrom(a, OpenPath(a, p, flags).ret, p, flags, buf, size);
  }

  lemma SessionFrom(a: PathFs, fd: nat, p: Name, flags: nat, buf: seq<byte>, size: nat)
    requires p != ROOT && p !in a.bytes && |buf| <= 256 && fd < 16 && fd !in a.fds
    requires PathInv(PathFs(a.bytes[p := []], a.vnodes + 1, a.fds[fd := Cursor(p, 0, flags)]))
    ensures var b := PathFs(a.bytes[p := []], a.vnodes + 1, a.fds[fd := Cursor(p, 0, flags)]);
            Answered(b, fd, buf, size, PathFs(a.bytes[p := buf], a.vnodes + 1, a.fds))
  {
    var b := PathFs(a.bytes[p := []], a.vnodes + 1, a.fds[fd := Cursor(p, 0, flags)]);
    PathInvWrite(b, fd, buf);
    FirstWrite(b, fd, p, flags, buf);
    var w := PathFs(a.bytes[p := buf], a.vnodes + 1, a.fds[fd := Cursor(p, |buf|, flags)]);
    assert a.bytes[p := []][p := buf] == a.bytes[p := buf];
    assert a.fds[fd := Cursor(p, 0, flags)][fd := Cursor(p, |buf|, flags)] == a.fds[fd := Cursor(p, |buf|, flags)];
    assert WritePath(b, fd, buf) == Outcome(w, |buf|, []);
    SeekRead(w, fd, 0, size);
    var n := Min(size, |buf|);
    assert Moved(w, fd, n).fds - {fd} == a.fds;
  }

  lemma FirstWrite(b: PathFs, fd: nat, p: Name, flags: nat, buf: seq<byte>)
    requires p != ROOT && p in b.bytes && b.bytes[p] == [] && fd in b.fds && b.fds[fd] == Cursor(p, 0, flags)
    requires |buf| <= 256
    ensures WritePath(b, fd, buf) ==
            Outcome(PathFs(b.bytes[p := buf], b.vnodes, b.fds[fd := Cursor(p, |buf|, flags)]), |buf|, [])
  {
    assert Overlay([], 0, buf) == buf;
  }
}
