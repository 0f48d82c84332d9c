/** The RAM file system and the descriptor table as the kernel keeps them: arrays changed in place. */
module Vfs {
  import opened Words
  import opened CStrings
  import opened FirstMatch
  import opened FileModel
  import opened FileHistory
  import opened RamPool

  class RamFs {
    const nodes: array<Vnode>
    const data: array<byte>
    var nodeCount: nat
    var dataUsed: nat
    /** The files held, root first. */
    ghost var contents: seq<Entry>

    ghost predicate Storage()
      reads this, nodes, data
    {
      && nodes.Length == MAX_NODES && data.Length == DATA_BYTES
      && forall k :: 0 <= k < MAX_NODES ==> |nodes[k].name| == NAME_BYTES
    }

    ghost predicate Valid()
      reads this, nodes, data
    {
      && Storage()
      && Holds(nodes[..], data[..], contents)
      && 1 <= nodeCount == |contents| && contents[0].name == ROOT
      && dataUsed == EXTENT * (nodeCount - 1)
    }

    constructor ()
      ensures fresh(nodes) && fresh(data)
      ensures Valid() && contents == [Entry(ROOT, [])]
    {
      nodes := new Vnode[MAX_NODES](_ => Vnode(0, 0, File, seq(NAME_BYTES, _ => 0), 0, 0, 0));
      data := new byte[DATA_BYTES];
      new;
      Init();
    }

    method Init()
      requires Storage()
      modifies this, nodes
      ensures Valid() && contents == [Entry(ROOT, [])]
    {
      nodeCount := 1;
      dataUsed := 0;
      var name := StrCpy(nodes[0].name, ROOT + [0]);
      nodes[0] := Vnode(0, 0, Dir, name, 0, 0, 0);
      StrUnique(ROOT + [0], ROOT);
      contents := [Entry(ROOT, [])];
    }

    /** The first vnode whose name is path; nodeCount stands for NULL. */
    method Lookup(path: seq<byte>) returns (k: nat)
      requires Valid() && 0 in path
      ensures k == Find(contents, Str(path))
    {
      k := 0;
      while k < nodeCount
        invariant k <= nodeCount
        invariant forall j :: 0 <= j < k ==> contents[j].name != Str(path)
      {
        assert nodes[..][k] == nodes[k];
        var c := StrCmp(nodes[k].name, path);
        if c == 0 { return; }
        k := k + 1;
      }
    }

    method CreateFile(path: seq<byte>) returns (ok: bool, k: nat)
      requires Valid() && 0 in path && StrLen(path) < NAME_BYTES
      modifies this, nodes
      ensures Valid() && k == old(nodeCount) && ok == (k < MAX_VNODES)
      ensures contents == if ok then old(contents) + [Entry(Str(path), [])] else old(contents)
    {
      k := nodeCount;
      if nodeCount >= MAX_NODES { return false, k; }
      if dataUsed + 256 >= DATA_BYTES { return false, k; }
      var name := StrCpy(nodes[k].name, path);
      var v := Vnode(nodeCount, 0, File, name, 0, dataUsed, 256);
      AppendVnode(nodes[..], data[..], contents, v);
      ghost var before := nodes[..];
      nodes[k] := v;
      assert nodes[..] == before[k := v];
      contents := contents + [Entry(Str(path), [])];
      dataUsed := dataUsed + v.dataCapacity;
      nodeCount := nodeCount + 1;
      return true, k;
    }

    /** The byte loop shared by seeding and writing: buf goes to pool positions at, at + 1, ... */
    method Store(at: nat, buf: seq<byte>)
      requires at + |buf| <= data.Length
      modifies data
      ensures Stored(old(data[..]), data[..], at, buf)
    {
      for i := 0 to |buf|
        invariant Stored(old(data[..]), data[..], at, buf[..i])
      {
        data[at + i] := buf[i];
      }
    }

    /** The byte loop of a read: pool positions at, at + 1, ... go to the caller's buffer. */
    method Load(at: nat, n: nat, dst: array<byte>)
      requires at + n <= data.Length && n <= dst.Length && dst != data
      modifies dst
      ensures dst[..n] == data[at..at + n] && dst[n..] == old(dst[n..])
    {
      for i := 0 to n
        invariant dst[..i] == data[at..at + i] && dst[i..] == old(dst[i..])
      {
        dst[i] := data[at + i];
      }
    }

    /** Delivers n bytes of vnode k from offset off on. */
    method LoadFrom(k: nat, off: nat, n: nat, dst: array<byte>)
      requires Valid() && k < |contents| && off + n <= |contents[k].bytes| && n <= dst.Length && dst != data
      modifies dst
      ensures Valid() && dst[..n] == contents[k].bytes[off..off + n] && dst[n..] == old(dst[n..])
    {
      assert nodes[..][k] == nodes[k];
      Slice(nodes[k], data[..], off, n);
      Load(nodes[k].dataOffset + off, n, dst);
    }

    /** Stores buf in vnode k from offset off on and extends the vnode when the write runs past its size. */
    method StoreInto(k: nat, off: nat, buf: seq<byte>)
      requires Valid() && k < |contents|
      requires off <= |contents[k].bytes| && off + |buf| <= Capacity(k)
      modifies this`contents, nodes, data
      ensures Valid()
      ensures contents == old(contents)[k := old(contents)[k].(bytes := Overlay(old(contents)[k].bytes, off, buf))]
    {
      ghost var before, pool := nodes[..], data[..];
      assert before[k] == nodes[k];
      Store(nodes[k].dataOffset + off, buf);
      StoreOverlays(before, pool, data[..], contents, k, off, buf);
      if off + |buf| > nodes[k].size {
        nodes[k] := nodes[k].(size := off + |buf|);
      }
      assert nodes[..] == before[k := Grown(before[k], off + |buf|)];
      contents := contents[k := contents[k].(bytes := Overlay(contents[k].bytes, off, buf))];
    }

    method SeedFile(path: seq<byte>, buf: seq<byte>) returns (r: int)
      requires Valid() && 0 in path && StrLen(path) < NAME_BYTES
      modifies this, nodes, data
      ensures Valid()
      ensures contents == SeedFiles(old(contents), Str(path), buf).0
      ensures r == SeedFiles(old(contents), Str(path), buf).1
    {
      var ok, k := CreateFile(path);
      if !ok { return ENOSPC; }
      r := FillNew(k, buf);
      SeedOverlay(old(contents), Str(path), buf);
    }

    /** Seeds the vnode just created, unless the contents are longer than its extent. */
    method FillNew(k: nat, buf: seq<byte>) returns (r: int)
      requires Valid() && 0 < k < |contents| && contents[k].bytes == []
      modifies this`contents, nodes, data
      ensures Valid() && r == if |buf| > EXTENT then ENOSPC else OK
      ensures contents == if |buf| > EXTENT then old(contents)
                          else old(contents)[k := old(contents)[k].(bytes := Overlay([], 0, buf))]
    {
      assert nodes[..][k] == nodes[k];
      if |buf| > nodes[k].dataCapacity { return ENOSPC; }
      StoreInto(k, 0, buf);
      return OK;
    }
  }

  // ---------------------------------------------------------------- descriptors

  datatype FileSlot = FileSlot(used: bool, flags: nat, offset: nat, node: nat)

  function SlotOf(f: FileSlot): Slot {
    if f.used then Opened(f.node, f.offset, f.flags) else Closed
  }

  /** The offset arithmetic of a seek, in wrapping uint64_t: the result passes the size check exactly when the
      true position lies in the file, and then it is the true position. */
  method NewOffset(offset: nat, size: nat, delta: int, whence: int) returns (known: bool, r: nat)
    requires offset <= size <= EXTENT && -(TWO63 as int) <= delta < TWO63
    ensures known == SeekTo(offset, size, delta, whence).At?
    ensures known ==>
              var p := SeekTo(offset, size, delta, whence).pos;
              (r <= size <==> 0 <= p <= size) && (r <= size ==> r == p)
  {
    if whence == 0 {
      r := U64(delta);
    } else if whence == 1 {
      r := U64(offset + U64(delta));
    } else if whence == 2 {
      r := U64(size + U64(delta));
    } else {
      return false, 0;
    }
    known := true;
    WrappedSeek(offset, size, delta, whence);
  }

  /** The unsigned subtraction of a read; with the offset inside the file it does not wrap. */
  method Remaining(size: nat, offset: nat) returns (r: nat)
    requires offset <= size < TWO64
    ensures r == size - offset
  {
    r := U64(size - offset);
  }

  /** A descriptor table over one RAM file system. */
  class FdTable {
    const fs: RamFs
    const files: array<FileSlot>
    ghost var fds: seq<Slot>

    ghost predicate Valid()
      reads this, fs, fs.nodes, fs.data, files
    {
      && fs.Valid()
      && Slotted()
      && Inv(State())
    }

    /** The ghost slots are what the table holds. */
    ghost predicate Slotted()
      reads this, files
    {
      files.Length == |fds| == MAX_FD && forall i :: 0 <= i < MAX_FD ==> fds[i] == SlotOf(files[i])
    }

    ghost function State(): Fs
      reads this, fs
    {
      Fs(fs.contents, fds)
    }

    constructor (fs: RamFs)
      requires fs.Valid()
      ensures this.fs == fs && fresh(files) && Valid() && State() == Fs(fs.contents, NoFds(MAX_FD))
    {
      this.fs := fs;
      files := new FileSlot[MAX_FD];
      fds := NoFds(MAX_FD);
      new;
      for i := 0 to MAX_FD
        invariant fs.Valid() && fds == NoFds(MAX_FD)
        invariant forall j :: 0 <= j < i ==> !files[j].used
      {
        files[i] := files[i].(used := false);
      }
      assert forall k :: 0 <= k < |fs.contents| ==> NodeOk(fs.nodes[..][k], k);
    }

    method Open(path: seq<byte>, flags: nat) returns (r: int)
      requires Valid() && 0 in path
      requires Creates(flags) && Find(fs.contents, Str(path)) == |fs.contents| ==> StrLen(path) < NAME_BYTES
      modifies this, fs, fs.nodes, files
      ensures Valid() && OpenList(old(State()), Str(path), flags) == Outcome(State(), r, [])
    {
      StepInv(State(), OpenCall(Str(path), flags));
      var k := fs.Lookup(path);
      if k == fs.nodeCount {
        if !Creates(flags) { return ENOENT; }
        var ok;
        ok, k := fs.CreateFile(path);
        if !ok { return ENOSPC; }
      }
      r := Install(k, flags);
      assert State() == OpenList(old(State()), Str(path), flags).fs;
    }

    /** Takes the lowest unused descriptor. */
    method Install(k: nat, flags: nat) returns (r: int)
      requires Slotted()
      modifies this, files
      ensures Slotted()
      ensures var fd := First(old(fds), Closed);
              if fd < MAX_FD then r == fd && fds == old(fds)[fd := Opened(k, 0, flags)]
              else r == ENFILE && fds == old(fds)
    {
      for fd := 0 to MAX_FD
        invariant unchanged(files) && fds == old(fds)
        invariant forall j :: 0 <= j < fd ==> fds[j] != Closed
      {
        if !files[fd].used {
          files[fd] := FileSlot(true, flags, 0, k);
          fds := fds[fd := Opened(k, 0, flags)];
          return fd;
        }
      }
      return ENFILE;
    }

    /** The descriptor checks that read, write and seek start with. */
    method Locate(fd: int) returns (used: bool, file: FileSlot)
      requires Valid()
      ensures used == Usable(State(), fd)
      ensures used ==> file == files[fd] && file.used && fds[fd] == SlotOf(file) && file.node < |fs.contents|
      ensures used ==>
                var node := fs.nodes[file.node];
                && file.offset <= node.size == |fs.contents[file.node].bytes|
                && node.size <= node.dataCapacity == Capacity(file.node)
    {
      if fd < 0 || fd >= MAX_FD { return false, FileSlot(false, 0, 0, 0); }
      file := files[fd];
      used := file.used;
      assert SlotInv(fs.contents, fds[fd]);
      assert used ==> fs.nodes[..][file.node] == fs.nodes[file.node];
    }

    method MoveTo(fd: nat, offset: nat)
      requires Slotted() && fd < MAX_FD && fds[fd].Opened?
      modifies this, files
      ensures Slotted() && fds == old(fds)[fd := old(fds)[fd].(offset := offset)]
    {
      files[fd] := files[fd].(offset := offset);
      fds := fds[fd := SlotOf(files[fd])];
    }

    /** The buffer need only hold what the file still has for this read. */
    method Read(fd: int, dst: array<byte>, size: nat) returns (r: int)
      requires Valid() && size < TWO64
      requires dst != fs.data && |ReadList(State(), fd, size).out| <= dst.Length
      modifies this, files, dst
      ensures Valid()
      ensures var c := ReadList(old(State()), fd, size);
              && State() == c.fs && r == c.ret
              && dst[..|c.out|] == c.out && dst[|c.out|..] == old(dst[|c.out|..])
    {
      StepInv(State(), ReadCall(fd, size));
      var used, file := Locate(fd);
      if !used { return EBADF; }
      var node := fs.nodes[file.node];
      var remain := Remaining(node.size, file.offset);
      var n := if size > remain then remain else size;
      ReadListAt(State(), fd, size);
      Deliver(fd, n, dst);
      return n;
    }

    /** Copies the next n bytes behind fd to dst and moves the offset past them. */
    method Deliver(fd: nat, n: nat, dst: array<byte>)
      requires fs.Valid() && Slotted() && Usable(State(), fd)
      requires fds[fd].node < |fs.contents| && fds[fd].offset + n <= |fs.contents[fds[fd].node].bytes|
      requires n <= dst.Length && dst != fs.data
      modifies this, files, dst
      ensures fs.Valid() && Slotted()
      ensures fds == old(fds)[fd := old(fds)[fd].(offset := old(fds)[fd].offset + n)]
      ensures var s := old(fds)[fd]; dst[..n] == fs.contents[s.node].bytes[s.offset..s.offset + n]
      ensures dst[n..] == old(dst[n..])
    {
      assert fds[fd] == SlotOf(files[fd]);
      fs.LoadFrom(files[fd].node, files[fd].offset, n, dst);
      MoveTo(fd, files[fd].offset + n);
    }

    method Write(fd: int, buf: seq<byte>) returns (r: int)
      requires Valid() && |buf| + EXTENT < TWO64
      modifies this, files, fs`contents, fs.nodes, fs.data
      ensures Valid() && WriteList(old(State()), fd, buf) == Outcome(State(), r, [])
    {
      StepInv(State(), WriteCall(fd, buf));
      var used, file := Locate(fd);
      if !used { return EBADF; }
      if U64(file.offset + |buf|) > fs.nodes[file.node].dataCapacity { return ENOSPC; }
      WriteListFits(State(), fd, buf);
      fs.StoreInto(file.node, file.offset, buf);
      MoveTo(fd, file.offset + |buf|);
      assert State() == WriteList(old(State()), fd, buf).fs;
      return |buf|;
    }

    method Seek(fd: int, delta: int, whence: int) returns (r: int)
      requires Valid() && -(TWO63 as int) <= delta < TWO63
      modifies this, files
      ensures Valid() && SeekList(old(State()), fd, delta, whence) == Outcome(State(), r, [])
    {
      StepInv(State(), SeekCall(fd, delta, whence));
      var used, file := Locate(fd);
      if !used { return EBADF; }
      var node := fs.nodes[file.node];
      var known, newOffset := NewOffset(file.offset, node.size, delta, whence);
      if !known { return EINVAL; }
      if newOffset > node.size { return EINVAL; }
      MoveTo(fd, newOffset);
      assert State() == SeekList(old(State()), fd, delta, whence).fs;
      return newOffset;
    }

    method Close(fd: int) returns (r: int)
      requires Valid()
      modifies this, files
      ensures Valid() && CloseList(old(State()), fd) == Outcome(State(), r, [])
    {
      StepInv(State(), CloseCall(fd));
      if fd < 0 || fd >= MAX_FD { return EBADF; }
      files[fd] := files[fd].(used := false);
      fds := fds[fd := Closed];
      return OK;
    }

    /** What a call may be given: short names where a vnode may be created, sizes and offsets of the C types. */
    static predicate Callable(op: Op) {
      match op
      case OpenCall(path, flags) => Creates(flags) ==> |path| < NAME_BYTES
      case ReadCall(fd, size) => size < TWO64
      case WriteCall(fd, buf) => |buf| + EXTENT < TWO64
      case SeekCall(fd, delta, whence) => -(TWO63 as int) <= delta < TWO63
      case CloseCall(fd) => true
      case SeedCall(path, buf) => |path| < NAME_BYTES
    }

    /** One call, marshalled from its description. */
    method Call(op: Op) returns (r: int, out: seq<byte>)
      requires Valid() && Callable(op)
      modifies this, files, fs, fs.nodes, fs.data
      ensures Valid() && Step(old(State()), op) == Outcome(State(), r, out)
    {
      out := [];
      match op
      case OpenCall(path, flags) =>
        StrUnique(path + [0], path);
        r := Open(path + [0], flags);
      case ReadCall(fd, size) =>
        var dst := new byte[size];
        ReadAtMost(State(), fd, size);
        r := Read(fd, dst, size);
        out := if r < 0 then [] else dst[..r];
      case WriteCall(fd, buf) => r := Write(fd, buf);
      case SeekCall(fd, delta, whence) => r := Seek(fd, delta, whence);
      case CloseCall(fd) => r := Close(fd);
      case SeedCall(path, buf) =>
        StrUnique(path + [0], path);
        StepInv(State(), op);
        r := fs.SeedFile(path + [0], buf);
    }

    /** Any sequence of calls: the arrays end in the state of the run and every answer is that of the run, on the
        vnode list and on the path map. */
    method Execute(ops: seq<Op>) returns (answers: seq<Answer>)
      requires Valid() && forall i :: 0 <= i < |ops| ==> Callable(ops[i])
      modifies this, files, fs, fs.nodes, fs.data
      ensures Valid() && State() == Run(old(State()), ops)
      ensures answers == Answers(old(State()), ops)
      ensures answers == AnswersPaths(Paths(old(State())), ops)
      ensures Paths(State()) == RunPaths(Paths(old(State())), ops)
    {
      answers := [];
      for n := 0 to |ops|
        invariant Valid() && State() == Run(old(State()), ops[..n])
        invariant answers == Answers(old(State()), ops[..n])
      {
        var r, out := Call(ops[n]);
        assert ops[..n + 1][..n] == ops[..n];
        answers := answers + [Answer(r, out)];
      }
      assert ops[..|ops|] == ops;
      RunRefines(old(State()), ops);
    }
  }

  /** Unsigned 64-bit seeking is exact: the wrapped sum passes the size check exactly when the true position does. */
  lemma WrappedSeek(offset: nat, size: nat, delta: int, whence: int)
    requires offset <= size <= EXTENT && -(TWO63 as int) <= delta < TWO63 && 0 <= whence <= 2
    ensures var base := if whence == 0 then 0 else if whence == 1 then offset else size;
            var wrapped := U64(base + U64(delta));
            && SeekTo(offset, size, delta, whence) == At(base + delta)
            && (wrapped <= size <==> 0 <= base + delta <= size)
            && (wrapped <= size ==> wrapped == base + delta)
  {
    var base := if whence == 0 then 0 else if whence == 1 then offset else size;
    assert delta < 0 ==> U64(delta) == delta + TWO64;
    if delta < 0 {
      assert U64(base + U64(delta)) == if base + delta < 0 then base + delta + TWO64 else base + delta;
    }
  }
}
