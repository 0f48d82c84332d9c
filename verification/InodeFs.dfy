/** fs/mcsfs1: files in per-inode buffers, found by the lowest inode of that name. */
module InodeFs {
  import opened Words
  import opened CStrings
  import opened FileModel

  const FILES: nat := 32
  const NAME_LEN: nat := 32
  const DATA_SIZE: nat := 256

  const NAME_EINVAL := -1
  const NO_SPACE := -2
  const NO_ENTRY := -3

  datatype Call = Create(name: Name) | Put(name: Name, buf: seq<byte>) | Get(name: Name, size: nat)

  datatype Result<S> = Result(fs: S, ret: int, out: seq<byte>)

  // ---------------------------------------------------------------- inode list

  function StepInodes(files: seq<Entry>, c: Call): Result<seq<Entry>> {
    match c
    case Create(name) =>
      if |name| >= NAME_LEN then Result(files, NAME_EINVAL, [])
      else if |files| >= FILES then Result(files, NO_SPACE, [])
      else Result(files + [Entry(name, [])], OK, [])
    case Put(name, buf) =>
      var k := Find(files, name);
      if |buf| > DATA_SIZE then Result(files, NO_SPACE, [])
      else if k == |files| then Result(files, NO_ENTRY, [])
      else Result(files[k := Entry(name, buf)], OK, [])
    case Get(name, size) =>
      var k := Find(files, name);
      if k == |files| then Result(files, NO_ENTRY, [])
      else
        var n := Min(size, |files[k].bytes|);
        Result(files, n, files[k].bytes[..n])
  }

  function RunInodes(files: seq<Entry>, cs: seq<Call>): seq<Entry> {
    if cs == [] then files else StepInodes(RunInodes(files, cs[..|cs| - 1]), cs[|cs| - 1]).fs
  }

  /** What the calls return and deliver, one answer per call. */
  datatype Answer = Answer(ret: int, out: seq<byte>)

  function AnswersInodes(files: seq<Entry>, cs: seq<Call>): seq<Answer> {
    if cs == [] then []
    else
      var c := StepInodes(RunInodes(files, cs[..|cs| - 1]), cs[|cs| - 1]);
      AnswersInodes(files, cs[..|cs| - 1]) + [Answer(c.ret, c.out)]
  }

  // ---------------------------------------------------------------- what a call gives its caller

  /** Creation fails for names of 32 bytes or more and when 32 inodes are taken, and then changes nothing; otherwise the
      name exists, a new name is an empty file, and no other file changes. */
  lemma CreateReadsEmpty(files: seq<Entry>, name: Name, size: nat)
    ensures var c := StepInodes(files, Create(name));
            if |name| >= 32 then c == Result(files, -1, [])
            else if |files| >= 32 then c == Result(files, -2, [])
            else
              && c.ret == 0 && |c.fs| == |files| + 1 && (forall i :: 0 <= i < |files| ==> c.fs[i] == files[i])
              && (Find(files, name) == |files| ==> StepInodes(c.fs, Get(name, size)) == Result(c.fs, 0, []))
              && Find(c.fs, name) < |c.fs|
  {
    var files' := StepInodes(files, Create(name)).fs;
    if |name| < NAME_LEN && |files| < FILES {
      assert files'[|files|].name == name;
      if Find(files, name) == |files| { assert Find(files', name) == |files|; }
    }
  }

  /** A write of more than 256 bytes or to a missing name is refused and changes nothing; otherwise reading the name
      returns the bytes and their number, and no other inode changes. */
  lemma PutReadsBack(files: seq<Entry>, name: Name, buf: seq<byte>, size: nat)
    ensures var c, k := StepInodes(files, Put(name, buf)), Find(files, name);
            if |buf| > 256 then c == Result(files, -2, [])
            else if k == |files| then c == Result(files, -3, [])
            else
              && c.ret == 0 && |c.fs| == |files|
              && StepInodes(c.fs, Get(name, size)) == Result(c.fs, Min(size, |buf|), buf[..Min(size, |buf|)])
              && forall i :: 0 <= i < |files| && i != k ==> c.fs[i] == files[i]
  {
    var k := Find(files, name);
    if |buf| <= DATA_SIZE && k < |files| {
      var files' := files[k := Entry(name, buf)];
      assert forall i :: 0 <= i < |files| ==> files'[i].name == files[i].name;
      assert Find(files', name) == k;
    }
  }

  /** A read of a missing name is refused; otherwise it returns the number of bytes it delivers, which is what was asked
      for or the whole file, and changes nothing. */
  lemma GetCount(files: seq<Entry>, name: Name, size: nat)
    ensures var c, k := StepInodes(files, Get(name, size)), Find(files, name);
            if k == |files| then c == Result(files, -3, [])
            else
              && c.fs == files && c.ret == |c.out| <= size && c.out <= files[k].bytes
              && (|c.out| < size ==> c.out == files[k].bytes)
  {
  }

  // ---------------------------------------------------------------- names to bytes

  /** `inodes` counts the inodes in use, duplicates included. */
  datatype Visible = Visible(bytes: map<Name, seq<byte>>, inodes: nat)

  function StepVisible(v: Visible, c: Call): Result<Visible> {
    match c
    case Create(name) =>
      if |name| >= NAME_LEN then Result(v, NAME_EINVAL, [])
      else if v.inodes >= FILES then Result(v, NO_SPACE, [])
      else Result(Visible(if name in v.bytes then v.bytes else v.bytes[name := []], v.inodes + 1), OK, [])
    case Put(name, buf) =>
      if |buf| > DATA_SIZE then Result(v, NO_SPACE, [])
      else if name !in v.bytes then Result(v, NO_ENTRY, [])
      else Result(v.(bytes := v.bytes[name := buf]), OK, [])
    case Get(name, size) =>
      if name !in v.bytes then Result(v, NO_ENTRY, [])
      else
        var n := Min(size, |v.bytes[name]|);
        Result(v, n, v.bytes[name][..n])
  }

  function RunVisible(v: Visible, cs: seq<Call>): Visible {
    if cs == [] then v else StepVisible(RunVisible(v, cs[..|cs| - 1]), cs[|cs| - 1]).fs
  }

  function AnswersVisible(v: Visible, cs: seq<Call>): seq<Answer> {
    if cs == [] then []
    else
      var c := StepVisible(RunVisible(v, cs[..|cs| - 1]), cs[|cs| - 1]);
      AnswersVisible(v, cs[..|cs| - 1]) + [Answer(c.ret, c.out)]
  }

  ghost function View(files: seq<Entry>): Visible {
    Visible(PathBytes(files), |files|)
  }

  /** Every call answers as the map of names does, also when a name was created more than once. */
  lemma CallRefines(files: seq<Entry>, c: Call)
    ensures var i, v := StepInodes(files, c), StepVisible(View(files), c);
            View(i.fs) == v.fs && i.ret == v.ret && i.out == v.out
  {
    Resolves(files, c.name);
    match c
    case Create(name) =>
      AppendFile(files, Entry(name, []));
    case Put(name, buf) =>
      var k := Find(files, name);
      if k < |files| {
        assert IsFirst(files, k);
        UpdateFile(files, k, buf);
      }
    case Get(name, size) =>
  }

  /** Every run: all answers and the final state are those of the map of names. */
  lemma {:induction false} RunRefines(files: seq<Entry>, cs: seq<Call>)
    ensures View(RunInodes(files, cs)) == RunVisible(View(files), cs)
    ensures AnswersInodes(files, cs) == AnswersVisible(View(files), cs)
  {
    if cs == [] {
    } else {
      RunRefines(files, cs[..|cs| - 1]);
      CallRefines(RunInodes(files, cs[..|cs| - 1]), cs[|cs| - 1]);
    }
  }

  // ---------------------------------------------------------------- the structure

  datatype Inode = Inode(used: bool, name: seq<byte>, size: nat, data: seq<byte>)

  ghost predicate Stores(n: Inode, e: Entry) {
    && n.used && 0 in n.name && Str(n.name) == e.name
    && n.size <= DATA_SIZE == |n.data| && n.data[..n.size] == e.bytes
  }

  class Mcsfs1 {
    var inodeCount: nat
    const inodes: array<Inode>
    ghost var files: seq<Entry>

    ghost predicate Storage()
      reads this, inodes
    {
      && inodes.Length == FILES
      && forall i :: 0 <= i < FILES ==> |inodes[i].name| == NAME_LEN && |inodes[i].data| == DATA_SIZE
    }

    /** The used inodes are exactly the first inodeCount ones. */
    ghost predicate Valid()
      reads this, inodes
    {
      && Storage() && inodeCount == |files| <= FILES
      && (forall i :: 0 <= i < |files| ==> Stores(inodes[i], files[i]))
      && (forall i :: |files| <= i < FILES ==> !inodes[i].used)
    }

    constructor ()
      ensures fresh(inodes) && Valid() && files == []
    {
      inodes := new Inode[FILES](_ => Inode(true, seq(NAME_LEN, _ => 0), 0, seq(DATA_SIZE, _ => 0)));
      new;
      Init();
    }

    method Init()
      requires Storage()
      modifies this, inodes
      ensures Valid() && files == []
    {
      inodeCount := 0;
      files := [];
      for i := 0 to FILES
        invariant Storage() && inodeCount == 0 && files == []
        invariant forall j :: 0 <= j < i ==> !inodes[j].used
      {
        inodes[i] := inodes[i].(used := false);
      }
    }

    method Create(name: seq<byte>) returns (r: int)
      requires Valid() && 0 in name
      modifies this, inodes
      ensures Valid() && StepInodes(old(files), Call.Create(Str(name))) == Result(files, r, [])
    {
      var len := Length(name);
      if len >= NAME_LEN { return NAME_EINVAL; }
      for i := 0 to FILES
        invariant Valid() && files == old(files) && i <= |files|
      {
        if !inodes[i].used {
          var copy := CopyName(inodes[i].name, name);
          inodes[i] := Inode(true, copy, 0, inodes[i].data);
          inodeCount := inodeCount + 1;
          files := files + [Entry(Str(name), [])];
          return OK;
        }
      }
      return NO_SPACE;
    }

    /** The lookup loop of write and read. */
    method Lookup(name: seq<byte>) returns (i: nat)
      requires Valid() && 0 in name
      ensures i == if Find(files, Str(name)) < |files| then Find(files, Str(name)) else FILES
    {
      i := 0;
      while i < FILES
        invariant 0 <= i <= FILES
        invariant forall j :: 0 <= j < i && j < |files| ==> files[j].name != Str(name)
      {
        if inodes[i].used {
          var eq := StrEq(inodes[i].name, name);
          if eq { return; }
        }
        i := i + 1;
      }
    }

    method Write(name: seq<byte>, buf: seq<byte>) returns (r: int)
      requires Valid() && 0 in name
      modifies this, inodes
      ensures Valid() && StepInodes(old(files), Put(Str(name), buf)) == Result(files, r, [])
    {
      if |buf| > DATA_SIZE { return NO_SPACE; }
      var i := Lookup(name);
      if i == FILES { return NO_ENTRY; }
      var data := Overwrite(inodes[i].data, buf);
      inodes[i] := inodes[i].(data := data, size := |buf|);
      files := files[i := Entry(Str(name), buf)];
      return OK;
    }

    method Read(name: seq<byte>, size: nat) returns (r: int, out: seq<byte>)
      requires Valid() && 0 in name
      ensures StepInodes(files, Get(Str(name), size)) == Result(files, r, out)
    {
      var i := Lookup(name);
      if i == FILES { return NO_ENTRY, []; }
      var n := if size > inodes[i].size then inodes[i].size else size;
      out := [];
      for j := 0 to n
        invariant out == inodes[i].data[..j]
      {
        out := out + [inodes[i].data[j]];
      }
      assert inodes[i].data[..n] == files[i].bytes[..n];
      return n, out;
    }

    /** One call, marshalled from its description. */
    method Answered(c: Call) returns (r: int, out: seq<byte>)
      requires Valid()
      modifies this, inodes
      ensures Valid() && StepInodes(old(files), c) == Result(files, r, out)
    {
      StrUnique(c.name + [0], c.name);
      out := [];
      match c
      case Create(name) => r := Create(name + [0]);
      case Put(name, buf) => r := Write(name + [0], buf);
      case Get(name, size) => r, out := Read(name + [0], size);
    }

    /** Any sequence of calls: every answer and the final contents are those of the map of names. */
    method Execute(cs: seq<Call>) returns (answers: seq<Answer>)
      requires Valid()
      modifies this, inodes
      ensures Valid() && files == RunInodes(old(files), cs) && answers == AnswersInodes(old(files), cs)
      ensures View(files) == RunVisible(View(old(files)), cs)
      ensures answers == AnswersVisible(View(old(files)), cs)
    {
      answers := [];
      for n := 0 to |cs|
        invariant Valid() && files == RunInodes(old(files), cs[..n])
        invariant answers == AnswersInodes(old(files), cs[..n])
      {
        var r, out := Answered(cs[n]);
        assert cs[..n + 1][..n] == cs[..n];
        answers := answers + [Answer(r, out)];
      }
      assert cs[..|cs|] == cs;
      RunRefines(old(files), cs);
    }
  }

  /** memcpy to the start of an inode's buffer. */
  method Overwrite(dst: seq<byte>, src: seq<byte>) returns (r: seq<byte>)
    requires |src| <= |dst|
    ensures |r| == |dst| && r[..|src|] == src && r[|src|..] == dst[|src|..]
  {
    r := dst;
    for i := 0 to |src|
      invariant |r| == |dst| && r[..i] == src[..i] && r[i..] == dst[i..]
    {
      r := r[i := src[i]];
    }
  }
}
