/** Disks as byte strings: single-byte stores, block writes, and the RAM block device. */
module BlockDisk {
  import opened Words

  const BLOCK: nat := 512

  type Disk = seq<byte>

  /** One byte store. */
  datatype Put = Put(addr: nat, val: byte)

  ghost predicate Inside(ps: seq<Put>, size: nat) {
    forall i :: 0 <= i < |ps| ==> ps[i].addr < size
  }

  /** The disk after the stores ps, in order. */
  function Apply(d: Disk, ps: seq<Put>): (r: Disk)
    requires Inside(ps, |d|)
    ensures |r| == |d|
  {
    if ps == [] then d
    else Apply(d, ps[..|ps| - 1])[ps[|ps| - 1].addr := ps[|ps| - 1].val]
  }

  /** The last store to address a among ps, or |ps|. */
  function LastTo(ps: seq<Put>, a: nat): (r: nat)
    ensures r <= |ps|
    ensures r < |ps| ==> ps[r].addr == a
    ensures forall i :: 0 <= i < |ps| && (i > r || r == |ps|) ==> ps[i].addr != a
  {
    if ps == [] then 0
    else if ps[|ps| - 1].addr == a then |ps| - 1
    else
      var k := LastTo(ps[..|ps| - 1], a);
      if k == |ps| - 1 then |ps| else k
  }

  /** A byte of the disk is the last byte stored there, or the byte that was there before. */
  lemma {:induction false} ApplyAt(d: Disk, ps: seq<Put>, a: nat)
    requires Inside(ps, |d|) && a < |d|
    ensures Apply(d, ps)[a] == if LastTo(ps, a) < |ps| then ps[LastTo(ps, a)].val else d[a]
  {
    if ps == [] {
    } else {
      ApplyAt(d, ps[..|ps| - 1], a);
    }
  }

  lemma {:induction false} ApplyConcat(d: Disk, ps: seq<Put>, qs: seq<Put>)
    requires Inside(ps, |d|) && Inside(qs, |d|)
    ensures Apply(d, ps + qs) == Apply(Apply(d, ps), qs)
  {
    if qs == [] {
      assert ps + qs == ps;
    } else {
      ApplyConcat(d, ps, qs[..|qs| - 1]);
      assert (ps + qs)[..|ps + qs| - 1] == ps + qs[..|qs| - 1];
    }
  }

  /** Interrupting a list of stores anywhere and then doing all of them is the same as doing them once. */
  lemma Redo(d: Disk, ps: seq<Put>, n: nat)
    requires Inside(ps, |d|) && n <= |ps|
    ensures Apply(Apply(d, ps[..n]), ps) == Apply(d, ps)
  {
    var part := Apply(d, ps[..n]);
    forall a | 0 <= a < |d| ensures Apply(part, ps)[a] == Apply(d, ps)[a] {
      ApplyAt(part, ps, a);
      ApplyAt(d, ps, a);
      ApplyAt(d, ps[..n], a);
    }
  }

  /** The stores that copy data to addresses base, base + 1, ... */
  function Copy(base: nat, data: seq<byte>): (ps: seq<Put>)
    ensures |ps| == |data|
    ensures forall i :: 0 <= i < |data| ==> ps[i] == Put(base + i, data[i])
  {
    if data == [] then [] else Copy(base, data[..|data| - 1]) + [Put(base + |data| - 1, data[|data| - 1])]
  }

  /** What writing block lba means for the whole disk. */
  function WriteBlock(d: Disk, lba: nat, data: seq<byte>): (r: Disk)
    requires (lba + 1) * BLOCK <= |d| && |data| == BLOCK
    ensures |r| == |d|
  {
    d[..lba * BLOCK] + data + d[(lba + 1) * BLOCK..]
  }

  function Block(d: Disk, lba: nat): (r: seq<byte>)
    requires (lba + 1) * BLOCK <= |d|
    ensures |r| == BLOCK
  {
    d[lba * BLOCK..(lba + 1) * BLOCK]
  }

  /** A block write changes its block to data and every other block not at all. */
  lemma WriteThenRead(d: Disk, lba: nat, data: seq<byte>, b: nat)
    requires (lba + 1) * BLOCK <= |d| && (b + 1) * BLOCK <= |d| && |data| == BLOCK
    ensures Block(WriteBlock(d, lba, data), b) == if b == lba then data else Block(d, b)
  {
    var w := WriteBlock(d, lba, data);
    forall i | 0 <= i < BLOCK
      ensures Block(w, b)[i] == if b == lba then data[i] else Block(d, b)[i]
    {
      assert Block(w, b)[i] == w[b * BLOCK + i];
      assert b < lba ==> b * BLOCK + i < lba * BLOCK;
      assert b > lba ==> b * BLOCK + i >= (lba + 1) * BLOCK;
    }
  }

  /** Byte by byte or as a block: the same disk. */
  lemma CopyIsWriteBlock(d: Disk, lba: nat, data: seq<byte>)
    requires (lba + 1) * BLOCK <= |d| && |data| == BLOCK
    ensures Inside(Copy(lba * BLOCK, data), |d|)
    ensures Apply(d, Copy(lba * BLOCK, data)) == WriteBlock(d, lba, data)
  {
    var ps := Copy(lba * BLOCK, data);
    var w := WriteBlock(d, lba, data);
    forall a | 0 <= a < |d| ensures Apply(d, ps)[a] == w[a] {
      ApplyAt(d, ps, a);
      if lba * BLOCK <= a < (lba + 1) * BLOCK {
        assert ps[a - lba * BLOCK].addr == a;
      }
    }
  }

  const BLOCK_OK := 0
  const BLOCK_EINVAL := -1

  /** mcs_ram_block_device_t behind the generic block interface. */
  class RamBlock {
    const storage: array<byte>
    const totalBlocks: nat

    ghost predicate Valid()
    {
      totalBlocks * BLOCK <= storage.Length < TWO64
    }

    constructor (storage: array<byte>, totalBlocks: nat)
      requires totalBlocks * BLOCK <= storage.Length < TWO64
      ensures Valid() && this.storage == storage && this.totalBlocks == totalBlocks
    {
      this.storage := storage;
      this.totalBlocks := totalBlocks;
    }

    method Read(lba: nat, buffer: array<byte>) returns (r: int)
      requires Valid() && buffer != storage && buffer.Length == BLOCK && lba < TWO64
      modifies buffer
      ensures r == if lba < totalBlocks then BLOCK_OK else BLOCK_EINVAL
      ensures buffer[..] == if lba < totalBlocks then Block(storage[..], lba) else old(buffer[..])
    {
      if lba >= totalBlocks { return BLOCK_EINVAL; }
      var src := U64(lba * BLOCK);
      for i := 0 to BLOCK
        invariant buffer[..i] == storage[src..src + i]
      {
        buffer[i] := storage[src + i];
      }
      assert buffer[..] == buffer[..BLOCK];
      return BLOCK_OK;
    }

    method Write(lba: nat, data: seq<byte>) returns (r: int)
      requires Valid() && |data| == BLOCK && lba < TWO64
      modifies storage
      ensures r == if lba < totalBlocks then BLOCK_OK else BLOCK_EINVAL
      ensures storage[..] == if lba < totalBlocks then WriteBlock(old(storage[..]), lba, data) else old(storage[..])
    {
      if lba >= totalBlocks { return BLOCK_EINVAL; }
      var dst := U64(lba * BLOCK);
      for i := 0 to BLOCK
        invariant storage[..dst] == old(storage[..dst])
        invariant storage[dst..dst + i] == data[..i]
        invariant storage[dst + BLOCK..] == old(storage[dst + BLOCK..])
      {
        storage[dst + i] := data[i];
      }
      assert storage[..] == storage[..dst] + storage[dst..dst + BLOCK] + storage[dst + BLOCK..];
      return BLOCK_OK;
    }
  }
}
