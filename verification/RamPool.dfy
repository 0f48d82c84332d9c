/** How the vnode array and the shared byte pool of the RAM file system hold a list of files. */
module RamPool {
  import opened Words
  import opened CStrings
  import opened FileModel

  const MAX_NODES: nat := 64
  const DATA_BYTES: nat := 8192
  const NAME_BYTES: nat := 32

  datatype NodeKind = Dir | File
  datatype Vnode = Vnode(id: nat, parent: nat, kind: NodeKind, name: seq<byte>,
                         size: nat, dataOffset: nat, dataCapacity: nat)

  /** The pool position at which the extent of vnode k starts. */
  function Base(k: nat): (r: nat)
    ensures k < MAX_VNODES ==> r + Capacity(k) <= DATA_BYTES
  {
    if k == 0 then 0 else EXTENT * (k - 1)
  }

  ghost predicate NodeOk(v: Vnode, k: nat) {
    && v.id == k && v.parent == 0 && v.kind == (if k == 0 then Dir else File)
    && 0 in v.name
    && v.dataOffset == Base(k) && v.dataCapacity == Capacity(k) && v.size <= v.dataCapacity
  }

  ghost function FileOf(v: Vnode, pool: seq<byte>): Entry
    requires 0 in v.name && v.dataOffset + v.size <= |pool|
  {
    Entry(Str(v.name), pool[v.dataOffset..v.dataOffset + v.size])
  }

  /** The first |files| vnodes hold these files, laid out one extent after the other in the pool. */
  ghost predicate Holds(nodes: seq<Vnode>, pool: seq<byte>, files: seq<Entry>) {
    && |files| <= MAX_VNODES && |nodes| == MAX_NODES && |pool| == DATA_BYTES
    && forall k :: 0 <= k < |files| ==> NodeOk(nodes[k], k) && files[k] == FileOf(nodes[k], pool)
  }

  lemma Slice(v: Vnode, pool: seq<byte>, off: nat, n: nat)
    requires 0 in v.name && v.dataOffset + v.size <= |pool| && off + n <= v.size
    ensures pool[v.dataOffset + off..v.dataOffset + off + n] == FileOf(v, pool).bytes[off..off + n]
  {
    var bytes := FileOf(v, pool).bytes;
    assert forall i :: off <= i < off + n ==> bytes[i] == pool[v.dataOffset + i];
  }

  /** Extents of different vnodes share no pool byte. */
  lemma ExtentsDisjoint(j: nat, k: nat, i: nat)
    requires j != k && Base(k) <= i < Base(k) + Capacity(k)
    ensures !(Base(j) <= i < Base(j) + Capacity(j))
  {
  }

  /** pool with buf stored from position at on. */
  ghost predicate Stored(pool: seq<byte>, pool': seq<byte>, at: nat, buf: seq<byte>) {
    && |pool'| == |pool|
    && forall i :: 0 <= i < |pool| ==> pool'[i] == if at <= i < at + |buf| then buf[i - at] else pool[i]
  }

  /** v after a write that ends at position end. */
  function Grown(v: Vnode, end: nat): Vnode {
    if end > v.size then v.(size := end) else v
  }

  /** Storing bytes inside one extent overlays that file and leaves every other file as it was. */
  lemma StoreOverlays(nodes: seq<Vnode>, pool: seq<byte>, pool': seq<byte>, files: seq<Entry>,
                      k: nat, off: nat, buf: seq<byte>)
    requires Holds(nodes, pool, files) && k < |files|
    requires off <= |files[k].bytes| && off + |buf| <= Capacity(k)
    requires Stored(pool, pool', Base(k) + off, buf)
    ensures Holds(nodes[k := Grown(nodes[k], off + |buf|)], pool',
                  files[k := files[k].(bytes := Overlay(files[k].bytes, off, buf))])
  {
    var nodes' := nodes[k := Grown(nodes[k], off + |buf|)];
    var files' := files[k := files[k].(bytes := Overlay(files[k].bytes, off, buf))];
    OwnFile(nodes[k], pool, pool', k, off, buf);
    forall j | 0 <= j < |files'| ensures NodeOk(nodes'[j], j) && files'[j] == FileOf(nodes'[j], pool') {
      if j != k { OtherFile(nodes[j], pool, pool', j, k, off, buf); }
    }
  }

  lemma OtherFile(v: Vnode, pool: seq<byte>, pool': seq<byte>, j: nat, k: nat, off: nat, buf: seq<byte>)
    requires j < MAX_VNODES && k < MAX_VNODES && j != k && NodeOk(v, j) && |pool| == DATA_BYTES
    requires off + |buf| <= Capacity(k) && Stored(pool, pool', Base(k) + off, buf)
    ensures FileOf(v, pool') == FileOf(v, pool)
  {
    var a, b := pool[v.dataOffset..v.dataOffset + v.size], pool'[v.dataOffset..v.dataOffset + v.size];
    forall i | 0 <= i < |a| ensures a[i] == b[i] {
      ExtentsDisjoint(k, j, v.dataOffset + i);
      assert a[i] == pool[v.dataOffset + i] && b[i] == pool'[v.dataOffset + i];
    }
  }

  lemma OwnFile(v: Vnode, pool: seq<byte>, pool': seq<byte>, k: nat, off: nat, buf: seq<byte>)
    requires k < MAX_VNODES && NodeOk(v, k) && |pool| == DATA_BYTES
    requires off <= v.size && off + |buf| <= Capacity(k) && Stored(pool, pool', Base(k) + off, buf)
    ensures NodeOk(Grown(v, off + |buf|), k)
    ensures FileOf(Grown(v, off + |buf|), pool') == Entry(Str(v.name), Overlay(FileOf(v, pool).bytes, off, buf))
  {
    var a, b := FileOf(Grown(v, off + |buf|), pool').bytes, Overlay(FileOf(v, pool).bytes, off, buf);
    assert |a| == |b|;
    forall i | 0 <= i < |a| ensures a[i] == b[i] {
      OverlayAt(FileOf(v, pool).bytes, off, buf, i);
      assert a[i] == pool'[v.dataOffset + i];
    }
  }

  /** A vnode filled in behind the last one becomes an empty file at the end of the list. */
  lemma AppendVnode(nodes: seq<Vnode>, pool: seq<byte>, files: seq<Entry>, v: Vnode)
    requires Holds(nodes, pool, files) && |files| < MAX_VNODES
    requires NodeOk(v, |files|) && v.size == 0
    ensures Holds(nodes[|files| := v], pool, files + [Entry(Str(v.name), [])])
  {
  }
}
