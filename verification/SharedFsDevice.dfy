/** Kernel MCSFS1 as the structure the kernel keeps: an inode array and one data array. */
module SharedFsDevice {
  import opened Words
  import opened CStrings
  import opened SharedFs

  datatype Record = Record(used: bool, name: seq<byte>, offset: nat, size: nat)

  ghost predicate Holds(r: Record, n: Inode) {
    r.used && 0 in r.name && Inode(Str(r.name), r.offset, r.size) == n
  }

  class Mcsfs {
    var inodeCount: nat
    var dataUsed: nat
    const inodes: array<Record>
    const data: array<byte>
    ghost var fs: Fs

    ghost predicate Storage()
      reads this, inodes, data
    {
      && inodes.Length == FILES && data.Length == AREA
      && forall i :: 0 <= i < FILES ==> |inodes[i].name| == NAME_LEN
    }

    ghost predicate Valid()
      reads this, inodes, data
    {
      && Storage() && InArea(fs)
      && inodeCount == |fs.inodes| && dataUsed == fs.dataUsed && data[..] == fs.data
      && forall i :: 0 <= i < |fs.inodes| ==> Holds(inodes[i], fs.inodes[i])
    }

    constructor ()
      ensures fresh(inodes) && fresh(data) && Valid() && fs.inodes == [] && fs.dataUsed == 0
    {
      inodes := new Record[FILES](_ => Record(true, seq(NAME_LEN, _ => 0), 0, 0));
      data := new byte[AREA];
      new;
      Init();
    }

    method Init()
      requires Storage()
      modifies this, inodes
      ensures Valid() && fs == Fs([], 0, data[..])
    {
      inodeCount := 0;
      dataUsed := 0;
      for i := 0 to FILES
        invariant Storage() && inodeCount == 0 && dataUsed == 0
      {
        inodes[i] := inodes[i].(used := false);
      }
      fs := Fs([], 0, data[..]);
    }

    /** m15_find_inode; inodeCount stands for the null pointer. */
    method FindInode(name: seq<byte>) returns (i: nat)
      requires Valid() && 0 in name
      ensures i == Find(fs.inodes, Str(name))
    {
      i := 0;
      while i < inodeCount
        invariant 0 <= i <= inodeCount
        invariant forall j :: 0 <= j < i ==> fs.inodes[j].name != Str(name)
      {
        assert Holds(inodes[i], fs.inodes[i]);
        if inodes[i].used {
          var c := StrCmp(inodes[i].name, name);
          if c == 0 { return; }
        }
        i := i + 1;
      }
    }

    method Create(name: seq<byte>) returns (r: int)
      requires Valid() && 0 in name && StrLen(name) < NAME_LEN
      modifies this, inodes
      ensures Valid() && (fs, r) == CreateFile(old(fs), Str(name))
    {
      if inodeCount >= FILES { return NO_SPACE; }
      var copy := StrCpy(inodes[inodeCount].name, name);
      inodes[inodeCount] := Record(true, copy, dataUsed, 0);
      inodeCount := inodeCount + 1;
      fs := fs.(inodes := fs.inodes + [Inode(Str(name), dataUsed, 0)]);
      return OK;
    }

    method Write(name: seq<byte>, buf: seq<byte>) returns (r: int)
      requires Valid() && 0 in name && |buf| + AREA < TWO64
      modifies this, inodes, data
      ensures Valid() && (fs, r) == PutFile(old(fs), Str(name), buf)
    {
      var k := FindInode(name);
      if k == inodeCount { return NO_ENTRY; }
      assert Holds(inodes[k], fs.inodes[k]);
      var offset := inodes[k].offset;
      if U64(offset + |buf|) >= AREA { return NO_SPACE; }
      CopyIn(offset, buf);
      inodes[k] := inodes[k].(size := |buf|);
      dataUsed := offset + |buf|;
      fs := Fs(fs.inodes[k := fs.inodes[k].(size := |buf|)], dataUsed, data[..]);
      return |buf|;
    }

    method CopyIn(at: nat, buf: seq<byte>)
      requires at + |buf| <= data.Length
      modifies data
      ensures data[..] == Store(old(data[..]), at, buf)
    {
      for i := 0 to |buf|
        invariant forall j :: 0 <= j < data.Length ==>
                    data[j] == if at <= j < at + i then buf[j - at] else old(data[j])
      {
        data[at + i] := buf[i];
      }
    }

    method Read(name: seq<byte>, size: nat) returns (out: seq<byte>, r: int)
      requires Valid() && 0 in name
      ensures (out, r) == GetFile(fs, Str(name), size)
      ensures r == |out| || (r == NO_ENTRY && out == [])
    {
      var k := FindInode(name);
      if k == inodeCount { return [], NO_ENTRY; }
      assert Holds(inodes[k], fs.inodes[k]);
      var offset := inodes[k].offset;
      var n := if size > inodes[k].size then inodes[k].size else size;
      out := [];
      for i := 0 to n
        invariant out == data[offset..offset + i]
      {
        out := out + [data[offset + i]];
      }
      FirstBytes(fs, k, n);
      assert data[offset..offset + n] == fs.data[offset..offset + n];
      return out, n;
    }

    /** What a call may be given: names and sizes that the structure can take. */
    static predicate Callable(c: Call) {
      match c
      case Create(name) => |name| < NAME_LEN
      case Put(name, buf) => |buf| + AREA < TWO64
    }

    /** One call, marshalled from its description. */
    method Perform(c: Call) returns (r: int)
      requires Valid() && Callable(c)
      modifies this, inodes, data
      ensures Valid() && (fs, r) == Step(old(fs), c)
    {
      StrUnique(c.name + [0], c.name);
      match c
      case Create(name) => r := Create(name + [0]);
      case Put(name, buf) => r := Write(name + [0], buf);
    }

    /** Any sequence of calls after initialisation; if the calls are disciplined, every file can be read back. */
    method Execute(cs: seq<Call>, ghost d: seq<byte>)
      requires Valid() && |d| == AREA && fs == Empty(d) && forall i :: 0 <= i < |cs| ==> Callable(cs[i])
      modifies this, inodes, data
      ensures Valid() && fs == Run(Empty(d), cs)
      ensures CarefulRun(Empty(d), cs) ==> Ordered(fs)
      ensures CarefulRun(Empty(d), cs) ==>
                forall name: Name, size: nat | Find(fs.inodes, name) < |fs.inodes| ::
                  var n := Min(size, |LastPut(d, cs, name)|);
                  GetFile(fs, name, size) == (LastPut(d, cs, name)[..n], n)
    {
      for i := 0 to |cs|
        invariant Valid() && fs == Run(Empty(d), cs[..i])
      {
        var r := Perform(cs[i]);
        assert cs[..i + 1][..i] == cs[..i];
      }
      assert cs[..|cs|] == cs;
      if CarefulRun(Empty(d), cs) {
        OrderedRun(d, cs);
        forall name: Name, size: nat | Find(fs.inodes, name) < |fs.inodes|
          ensures var n := Min(size, |LastPut(d, cs, name)|);
                  GetFile(fs, name, size) == (LastPut(d, cs, name)[..n], n)
        {
          ReadsLastPut(d, cs, name, size);
        }
      }
    }
  }

  lemma FirstBytes(fs: Fs, k: nat, n: nat)
    requires InArea(fs) && k < |fs.inodes| && n <= fs.inodes[k].size
    ensures Bytes(fs, k)[..n] == fs.data[fs.inodes[k].offset..fs.inodes[k].offset + n]
  {
  }
}
