/** Kernel MCSFS1: all files in one data area, each new file starting where the last write ended. */
module SharedFs {
  import opened Words
  import opened CStrings

  const FILES: nat := 32
  const NAME_LEN: nat := 64
  const AREA: nat := 4096

  const OK := 0
  const NO_ENTRY := -2
  const NO_SPACE := -3

  datatype Inode = Inode(name: Name, offset: nat, size: nat)
  datatype Fs = Fs(inodes: seq<Inode>, dataUsed: nat, data: seq<byte>)

  datatype Call = Create(name: Name) | Put(name: Name, buf: seq<byte>)

  function Find(inodes: seq<Inode>, name: Name, from: nat := 0): (r: nat)
    requires from <= |inodes|
    ensures from <= r <= |inodes|
    ensures r < |inodes| ==> inodes[r].name == name
    ensures forall i :: from <= i < r ==> inodes[i].name != name
    decreases |inodes| - from
  {
    if from == |inodes| || inodes[from].name == name then from else Find(inodes, name, from + 1)
  }

  /** Every extent lies in the data area. */
  ghost predicate InArea(fs: Fs) {
    && |fs.data| == AREA && |fs.inodes| <= FILES && fs.dataUsed < AREA
    && forall i :: 0 <= i < |fs.inodes| ==> fs.inodes[i].offset + fs.inodes[i].size < AREA
  }

  /** data with buf stored from position at on. */
  function Store(data: seq<byte>, at: nat, buf: seq<byte>): (r: seq<byte>)
    requires at + |buf| <= |data|
    ensures |r| == |data|
    ensures forall i :: 0 <= i < |data| ==> r[i] == if at <= i < at + |buf| then buf[i - at] else data[i]
  {
    data[..at] + buf + data[at + |buf|..]
  }

  function CreateFile(fs: Fs, name: Name): (Fs, int) {
    if |fs.inodes| >= FILES then (fs, NO_SPACE)
    else (fs.(inodes := fs.inodes + [Inode(name, fs.dataUsed, 0)]), OK)
  }

  function PutFile(fs: Fs, name: Name, buf: seq<byte>): (Fs, int)
    requires InArea(fs)
  {
    var k := Find(fs.inodes, name);
    if k == |fs.inodes| then (fs, NO_ENTRY)
    else
      var n := fs.inodes[k];
      if n.offset + |buf| >= AREA then (fs, NO_SPACE)
      else (Fs(fs.inodes[k := n.(size := |buf|)], n.offset + |buf|, Store(fs.data, n.offset, buf)), |buf|)
  }

  function Step(fs: Fs, c: Call): (r: (Fs, int))
    requires InArea(fs)
    ensures InArea(r.0)
  {
    match c
    case Create(name) => CreateFile(fs, name)
    case Put(name, buf) => PutFile(fs, name, buf)
  }

  function Run(fs: Fs, cs: seq<Call>): (r: Fs)
    requires InArea(fs)
    ensures InArea(r)
  {
    if cs == [] then fs else Step(Run(fs, cs[..|cs| - 1]), cs[|cs| - 1]).0
  }

  /** The bytes that reading file k delivers. */
  function Bytes(fs: Fs, k: nat): seq<byte>
    requires InArea(fs) && k < |fs.inodes|
  {
    fs.data[fs.inodes[k].offset..fs.inodes[k].offset + fs.inodes[k].size]
  }

  function GetFile(fs: Fs, name: Name, size: nat): (seq<byte>, int)
    requires InArea(fs)
  {
    var k := Find(fs.inodes, name);
    if k == |fs.inodes| then ([], NO_ENTRY)
    else
      var n := Min(size, fs.inodes[k].size);
      (Bytes(fs, k)[..n], n)
  }

  // ---------------------------------------------------------------- what a call gives its caller

  /** A read of a missing name is refused; otherwise it returns the number of bytes it delivers, which is what was asked
      for or the whole file. */
  lemma ReadCount(fs: Fs, name: Name, size: nat)
    requires InArea(fs)
    ensures var (out, n) := GetFile(fs, name, size);
            if exists i :: 0 <= i < |fs.inodes| && fs.inodes[i].name == name
            then n == |out| <= size && (|out| < size ==> |out| == fs.inodes[Find(fs.inodes, name)].size)
            else out == [] && n == NO_ENTRY
  {
  }

  /** A write fails exactly when the name is missing or its bytes would reach the end of the area, and then changes
      nothing; otherwise it returns the number of bytes written and reading the name returns them, whatever other files
      share the extent. */
  lemma WriteReadsBack(fs: Fs, name: Name, buf: seq<byte>, size: nat)
    requires InArea(fs)
    ensures var k := Find(fs.inodes, name);
            var (fs', r) := PutFile(fs, name, buf);
            if k == |fs.inodes| then fs' == fs && r == NO_ENTRY
            else if fs.inodes[k].offset + |buf| >= 4096 then fs' == fs && r == NO_SPACE
            else
              && r == |buf| && InArea(fs') && |fs'.inodes| == |fs.inodes|
              && GetFile(fs', name, size) == (buf[..Min(size, |buf|)], Min(size, |buf|))
              && forall i :: 0 <= i < |fs.inodes| && i != k ==> fs'.inodes[i] == fs.inodes[i]
  {
    var k := Find(fs.inodes, name);
    if k < |fs.inodes| && fs.inodes[k].offset + |buf| < AREA {
      var fs' := PutFile(fs, name, buf).0;
      assert forall i :: 0 <= i < |fs.inodes| ==> fs'.inodes[i].name == fs.inodes[i].name;
      assert Find(fs'.inodes, name) == k;
      assert Bytes(fs', k) == buf;
    }
  }

  /** Creation fails exactly when 32 inodes are taken; otherwise the name exists, a new name reads as an empty file that
      starts at the end of the last write, and no other file changes. */
  lemma CreateReadsEmpty(fs: Fs, name: Name, size: nat)
    requires InArea(fs)
    ensures var (fs', r) := CreateFile(fs, name);
            if |fs.inodes| >= 32 then fs' == fs && r == NO_SPACE
            else
              && r == OK && InArea(fs') && |fs'.inodes| == |fs.inodes| + 1
              && fs'.data == fs.data && fs'.dataUsed == fs.dataUsed == fs'.inodes[|fs.inodes|].offset
              && (forall i :: 0 <= i < |fs.inodes| ==> fs'.inodes[i] == fs.inodes[i])
              && (Find(fs.inodes, name) == |fs.inodes| ==> GetFile(fs', name, size) == ([], 0))
  {
    var fs' := CreateFile(fs, name).0;
    if |fs.inodes| < FILES && Find(fs.inodes, name) == |fs.inodes| {
      assert forall i :: 0 <= i < |fs.inodes| ==> fs'.inodes[i].name == fs.inodes[i].name;
      assert fs'.inodes[|fs.inodes|].name == name;
      assert Find(fs'.inodes, name) == |fs.inodes|;
    }
  }

  // ---------------------------------------------------------------- when files stay apart

  /** Writing n bytes to file k touches no byte of file j. */
  predicate Apart(fs: Fs, k: nat, j: nat, n: nat)
    requires k < |fs.inodes| && j < |fs.inodes|
  {
    var a, b := fs.inodes[k], fs.inodes[j];
    n == 0 || b.size == 0 || a.offset + n <= b.offset || b.offset + b.size <= a.offset
  }

  /** A successful write to one file leaves another file's bytes alone, whatever is written, exactly when the written
      range and the other file's extent do not meet: a check on the two inodes. */
  lemma WriteIsolatedIff(fs: Fs, k: nat, j: nat, n: nat)
    requires InArea(fs) && k < |fs.inodes| && j < |fs.inodes| && j != k
    requires Find(fs.inodes, fs.inodes[k].name) == k && fs.inodes[k].offset + n < AREA
    ensures Apart(fs, k, j, n) <==>
            forall buf: seq<byte> :: |buf| == n ==> Bytes(Step(fs, Put(fs.inodes[k].name, buf)).0, j) == Bytes(fs, j)
  {
    var a, b := fs.inodes[k], fs.inodes[j];
    if Apart(fs, k, j, n) {
      forall buf: seq<byte> | |buf| == n
        ensures Bytes(Step(fs, Put(a.name, buf)).0, j) == Bytes(fs, j)
      {
      }
    } else {
      var at := if a.offset > b.offset then a.offset else b.offset;
      var other: byte := if fs.data[at] == 0 then 1 else 0;
      var buf := seq(n, _ => other);
      var r := Step(fs, Put(a.name, buf)).0;
      assert Bytes(r, j)[at - b.offset] == r.data[at] == other;
      assert Bytes(fs, j)[at - b.offset] == fs.data[at];
    }
  }

  /** After m15_mcsfs1_init, which leaves the data area as it was. */
  function Empty(d: seq<byte>): (fs: Fs)
    requires |d| == AREA
    ensures InArea(fs)
  {
    Fs([], 0, d)
  }

  /** Two files created before either is written share their bytes: the second write replaces the first file. */
  lemma SharedExtent(d: seq<byte>, a: Name, b: Name, x: byte, y: byte)
    requires |d| == AREA && a != b
    ensures var fs := Run(Empty(d), [Create(a), Create(b), Put(a, [x]), Put(b, [y])]);
            GetFile(fs, a, 1) == ([y], 1)
  {
    var cs := [Create(a), Create(b), Put(a, [x]), Put(b, [y])];
    var s1 := CreateFile(Empty(d), a).0;
    var s2 := CreateFile(s1, b).0;
    var s3 := PutFile(s2, a, [x]).0;
    assert cs[..3] == [Create(a), Create(b), Put(a, [x])];
    assert cs[..3][..2] == [Create(a), Create(b)];
    assert cs[..3][..2][..1] == [Create(a)];
    assert cs[..3][..2][..1][..0] == [];
    assert Run(Empty(d), [Create(a)]) == s1;
    assert Run(Empty(d), [Create(a), Create(b)]) == s2;
    assert s2.inodes == [Inode(a, 0, 0), Inode(b, 0, 0)];
    assert Find(s2.inodes, a) == 0;
    assert Run(Empty(d), cs[..3]) == s3;
    assert s3.inodes == [Inode(a, 0, 1), Inode(b, 0, 0)];
    assert Find(s3.inodes, b) == 1;
    var s4 := PutFile(s3, b, [y]).0;
    assert Run(Empty(d), cs) == s4;
    assert s4.inodes == [Inode(a, 0, 1), Inode(b, 0, 1)];
    assert Find(s4.inodes, a) == 0;
    assert Bytes(s4, 0) == [s4.data[0]] == [y];
    assert [y][..1] == [y];
  }

  // ---------------------------------------------------------------- the disciplined runs

  /** A new name each time, and writes only to the file created last. */
  predicate Careful(fs: Fs, c: Call) {
    match c
    case Create(name) => Find(fs.inodes, name) == |fs.inodes|
    case Put(name, buf) => fs.inodes != [] && name == fs.inodes[|fs.inodes| - 1].name
  }

  ghost predicate CarefulRun(fs: Fs, cs: seq<Call>)
    requires InArea(fs)
  {
    cs != [] ==> CarefulRun(fs, cs[..|cs| - 1]) && Careful(Run(fs, cs[..|cs| - 1]), cs[|cs| - 1])
  }

  /** Extents follow each other without overlap up to dataUsed, and names are distinct. */
  ghost predicate Ordered(fs: Fs) {
    && (forall i, j :: 0 <= i < j < |fs.inodes| ==> fs.inodes[i].offset + fs.inodes[i].size <= fs.inodes[j].offset)
    && (forall i, j :: 0 <= i < j < |fs.inodes| ==> fs.inodes[i].name != fs.inodes[j].name)
    && fs.dataUsed == if fs.inodes == [] then 0 else fs.inodes[|fs.inodes| - 1].offset + fs.inodes[|fs.inodes| - 1].size
  }

  lemma OrderedFind(fs: Fs, k: nat)
    requires Ordered(fs) && k < |fs.inodes|
    ensures Find(fs.inodes, fs.inodes[k].name) == k
  {
    var j := Find(fs.inodes, fs.inodes[k].name);
    assert j <= k;
  }

  lemma OrderedStep(fs: Fs, c: Call)
    requires InArea(fs) && Ordered(fs) && Careful(fs, c)
    ensures Ordered(Step(fs, c).0)
  {
    if c.Put? { OrderedFind(fs, |fs.inodes| - 1); }
  }

  lemma {:induction false} OrderedRun(d: seq<byte>, cs: seq<Call>)
    requires |d| == AREA && CarefulRun(Empty(d), cs)
    ensures Ordered(Run(Empty(d), cs))
  {
    if cs == [] {
    } else {
      OrderedRun(d, cs[..|cs| - 1]);
      OrderedStep(Run(Empty(d), cs[..|cs| - 1]), cs[|cs| - 1]);
    }
  }

  /** The last bytes successfully written under a name in the run, empty after its creation. */
  function LastPut(d: seq<byte>, cs: seq<Call>, name: Name): seq<byte>
    requires |d| == AREA
  {
    if cs == [] then []
    else
      var init, c := cs[..|cs| - 1], cs[|cs| - 1];
      if c.Put? && c.name == name && Step(Run(Empty(d), init), c).1 >= 0 then c.buf else LastPut(d, init, name)
  }

  /** In a disciplined run one call changes the bytes of the file it writes and of no other. */
  lemma StepBytes(fs: Fs, c: Call, k: nat)
    requires InArea(fs) && Ordered(fs) && Careful(fs, c) && k < |Step(fs, c).0.inodes|
    ensures Bytes(Step(fs, c).0, k) ==
            if c.Put? && c.name == Step(fs, c).0.inodes[k].name && Step(fs, c).1 >= 0 then c.buf
            else if k < |fs.inodes| then Bytes(fs, k) else []
    ensures k < |fs.inodes| ==> Step(fs, c).0.inodes[k].name == fs.inodes[k].name
  {
    if c.Put? {
      var last := |fs.inodes| - 1;
      OrderedFind(fs, last);
      if k != last && fs.inodes[last].offset + |c.buf| < AREA {
        WriteIsolatedIff(fs, last, k, |c.buf|);
      }
    }
  }

  /** Reading any file of a disciplined run delivers a prefix of what was last written to it. */
  lemma {:induction false} FilesKeepLastPut(d: seq<byte>, cs: seq<Call>, k: nat)
    requires |d| == AREA && CarefulRun(Empty(d), cs) && k < |Run(Empty(d), cs).inodes|
    ensures Bytes(Run(Empty(d), cs), k) == LastPut(d, cs, Run(Empty(d), cs).inodes[k].name)
    decreases |cs|
  {
    if cs == [] {
    } else {
      var init, c := cs[..|cs| - 1], cs[|cs| - 1];
      var fs := Run(Empty(d), init);
      OrderedRun(d, init);
      StepBytes(fs, c, k);
      if k < |fs.inodes| {
        FilesKeepLastPut(d, init, k);
      } else {
        NeverPut(d, init, Run(Empty(d), cs).inodes[k].name);
      }
    }
  }

  /** A name that does not exist was never written: names are never removed. */
  lemma {:induction false} NeverPut(d: seq<byte>, cs: seq<Call>, name: Name)
    requires |d| == AREA && Find(Run(Empty(d), cs).inodes, name) == |Run(Empty(d), cs).inodes|
    ensures LastPut(d, cs, name) == []
  {
    if cs == [] {
    } else {
      var init := cs[..|cs| - 1];
      var fs, fs' := Run(Empty(d), init), Run(Empty(d), cs);
      assert forall i :: 0 <= i < |fs.inodes| ==> fs'.inodes[i].name == fs.inodes[i].name;
      assert Find(fs.inodes, name) == |fs.inodes|;
      NeverPut(d, init, name);
    }
  }

  lemma ReadsLastPut(d: seq<byte>, cs: seq<Call>, name: Name, size: nat)
    requires |d| == AREA && CarefulRun(Empty(d), cs)
    requires Find(Run(Empty(d), cs).inodes, name) < |Run(Empty(d), cs).inodes|
    ensures var n := Min(size, |LastPut(d, cs, name)|);
            GetFile(Run(Empty(d), cs), name, size) == (LastPut(d, cs, name)[..n], n)
  {
    var fs := Run(Empty(d), cs);
    FilesKeepLastPut(d, cs, Find(fs.inodes, name));
    GetIs(fs, name, size, LastPut(d, cs, name));
  }

  lemma GetIs(fs: Fs, name: Name, size: nat, bytes: seq<byte>)
    requires InArea(fs) && Find(fs.inodes, name) < |fs.inodes| && Bytes(fs, Find(fs.inodes, name)) == bytes
    ensures GetFile(fs, name, size) == (bytes[..Min(size, |bytes|)], Min(size, |bytes|))
  {
  }
}
