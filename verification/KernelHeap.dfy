/** kmem.c: the linked list of block headers, walked and split in place. */
module KernelHeap {
  import opened Words
  import opened HeapModel

  /** kmem_block_t, and the address it stands at. */
  class Header {
    const addr: nat
    var size: nat
    var free: bool
    var next: Header?

    constructor (addr: nat, size: nat, free: bool, next: Header?)
      ensures this.addr == addr && this.size == size && this.free == free && this.next == next
    {
      this.addr, this.size, this.free, this.next := addr, size, free, next;
    }
  }

  class Heap {
    const h: nat
    var head: Header?
    /** The buffer, as the headers written into it by address: what a cast of an address to a header yields. */
    var mem: map<nat, Header>
    ghost const base: nat
    ghost const end: nat
    /** The headers in list order, and what they say. */
    ghost var list: seq<Header>
    ghost var bs: seq<Blk>

    ghost predicate Valid()
      reads this, list
    {
      && 0 < h && end < TWO64 && Tiles(bs, h, base, end)
      && Linked()
    }

    ghost predicate Linked()
      reads this, list
    {
      Chained() && Labelled() && Mapped()
    }

    /** The next pointers lead from head through the list to null. */
    ghost predicate Chained()
      reads this, list
    {
      && 0 < |list| && head == list[0] && list[|list| - 1].next == null
      && (forall i, j :: 0 <= i < j < |list| ==> list[i] != list[j])
      && (forall i, j :: 0 <= i && j == i + 1 < |list| ==> list[i].next == list[j])
    }

    ghost predicate Labelled()
      reads this, list
    {
      && |list| == |bs|
      && (forall i :: 0 <= i < |list| ==> Shows(list[i], bs[i]))
    }

    /** Every header of the list is found at its address. */
    ghost predicate Mapped()
      reads this
    {
      forall i :: 0 <= i < |list| ==> Found(mem, list[i])
    }

    constructor (h: nat, base: nat, size: nat)
      requires 0 < h <= size && base + size < TWO64
      ensures Valid() && fresh(set x | x in list) && this.h == h && this.base == base && this.end == base + size
      ensures bs == Initial(h, base, size).bs
    {
      var b := new Header(base, size - h, true, null);
      this.h, this.base, this.end := h, base, base + size;
      head := b;
      mem := map[base := b];
      list := [b];
      bs := [Blk(base, size - h, true)];
    }

    /** First fit: the address behind the header of the block taken, or 0 when nothing fits. */
    method Kmalloc(n: nat) returns (p: nat)
      requires Valid()
      modifies this, list
      ensures Valid() && bs == Alloc(old(bs), h, n) && p == Pointer(old(bs), h, n)
      ensures RightAnswer(old(bs), h, n, p)
      ensures forall i :: 0 <= i < |list| ==> list[i] in old(list) || fresh(list[i])
    {
      PointerIs(bs, h, n);
      if n == 0 { return 0; }
      var curr := Walk(n);
      if curr == null { return 0; }
      p := HandOut(curr, n);
    }

    /** Takes the first fitting block and returns the address behind its header. */
    method HandOut(curr: Header, n: nat) returns (p: nat)
      requires Valid() && n != 0
      requires var k := FirstFit(bs, n); k < |bs| && curr == list[k]
      modifies this, list
      ensures Valid() && bs == Alloc(old(bs), h, n) && p == Pointer(old(bs), h, n)
      ensures forall i :: 0 <= i < |list| ==> list[i] in old(list) || fresh(list[i])
    {
      ghost var k := FirstFit(bs, n);
      AllocTiles(bs, h, n, base, end);
      NoHeaderInside(bs, h, base, end, k, n);
      p := curr.addr + h;
      Take(k, curr, n);
    }

    /** The walk along the next pointers to the first free block of n bytes. */
    method Walk(n: nat) returns (curr: Header?)
      requires Linked()
      ensures curr == null <==> NoneFree(bs, n)
      ensures var k := FirstFit(bs, n); curr == if k < |bs| then list[k] else null
    {
      curr := head;
      ghost var k: nat := 0;
      while curr != null
        invariant k <= |list| && curr == if k < |list| then list[k] else null
        invariant forall i :: 0 <= i < k ==> !Fits(bs[i], n)
        decreases |list| - k
      {
        if curr.free && curr.size >= n { return; }
        curr := curr.next;
        k := k + 1;
      }
    }

    /** Splits block k when the rest can hold a header and a byte, and marks it used. */
    method Take(ghost k: nat, curr: Header, n: nat)
      requires Linked() && k < |list| && curr == list[k] && n <= bs[k].size
      requires bs[k].size - n > h ==> forall i :: 0 <= i < |bs| ==> bs[i].addr != bs[k].addr + h + n
      modifies this, list
      ensures Linked() && bs == Splice(old(bs), k, Cut(old(bs)[k], h, n))
      ensures forall i :: 0 <= i < |list| ==> list[i] in old(list) || fresh(list[i])
    {
      var remaining := curr.size - n;
      if remaining > h {
        Split(k, curr, n);
      }
      Mark(k, curr, false);
      TakenIsCut(old(bs), k, h, n);
    }

    method Mark(ghost k: nat, b: Header, free: bool)
      requires Linked() && k < |list| && b == list[k]
      modifies this`bs, b`free
      ensures Linked() && bs == old(bs)[k := old(bs)[k].(free := free)]
    {
      b.free := free;
      bs := bs[k := bs[k].(free := free)];
    }

    /** Puts a new header behind the first n bytes of block k, where no header stands. */
    method Split(ghost k: nat, curr: Header, n: nat)
      requires Linked() && k < |list| && curr == list[k] && n + h < bs[k].size
      requires forall i :: 0 <= i < |bs| ==> bs[i].addr != bs[k].addr + h + n
      modifies this, list
      ensures Linked() && k < |list| && curr == list[k]
      ensures bs == Splice(old(bs), k, Halves(old(bs)[k], h, n))
      ensures forall i :: 0 <= i < |list| ==> list[i] in old(list) || fresh(list[i])
    {
      ghost var l := list;
      var b := new Header(curr.addr + h + n, curr.size - n - h, true, curr.next);
      LinkAfter(k, curr, b);
      assert forall i :: k + 1 < i < |list| ==> list[i] == l[i - 1];
      Relabel(k, curr, n, b);
    }

    /** Shortens block k to n bytes and records the header b that was linked behind it. */
    method Relabel(ghost k: nat, curr: Header, n: nat, b: Header)
      requires Chained() && k < |bs| == |list| - 1 && curr == list[k] && b == list[k + 1]
      requires n + h < bs[k].size && Shows(b, Halves(bs[k], h, n)[1])
      requires forall i :: 0 <= i <= k ==> Shows(list[i], bs[i])
      requires forall i :: k + 1 < i < |list| ==> Shows(list[i], bs[i - 1])
      requires forall i :: 0 <= i < |list| && i != k + 1 ==> Found(mem, list[i]) && list[i].addr != b.addr
      modifies this`bs, this`mem, curr`size
      ensures Linked() && bs == Splice(old(bs), k, Halves(old(bs)[k], h, n))
    {
      curr.size := n;
      mem := mem[b.addr := b];
      ghost var was := bs;
      bs := Splice(was, k, Halves(was[k], h, n));
      forall i | 0 <= i < |list| ensures Shows(list[i], bs[i]) {
        if i < k {
          assert bs[i] == was[i];
        } else if i > k + 1 {
          assert bs[i] == was[i - 1];
        }
      }
    }

    /** Links b, which already points at curr's successor, behind curr. */
    method LinkAfter(ghost k: nat, curr: Header, b: Header)
      requires Chained() && k < |list| && curr == list[k] && b !in list && b.next == curr.next
      modifies this`list, curr`next
      ensures Chained() && list == Insert(old(list), k + 1, b)
    {
      ghost var l := list;
      curr.next := b;
      list := Insert(l, k + 1, b);
      forall i, j | 0 <= i && j == i + 1 < |list| ensures list[i].next == list[j] {
        if i > k + 1 { assert list[i] == l[i - 1] && list[j] == l[i]; }
        else if i == k + 1 { assert list[j] == l[k + 1]; }
      }
      assert k + 1 < |l| ==> list[|list| - 1] == l[|l| - 1];
    }

    /** The header in front of p is marked free, whatever state it was in. */
    method Kfree(p: nat)
      requires Valid() && (p != 0 ==> Fronted(bs, h, p))
      modifies this, list
      ensures Valid() && list == old(list)
      ensures bs == if p == 0 then old(bs) else Release(old(bs), Owner(old(bs), h, p))
    {
      if p == 0 { return; }
      ghost var k := Owner(bs, h, p);
      assert list[k].addr == p - h;
      ReleaseTiles(bs, h, base, end, k);
      Mark(k, mem[p - h], true);
    }

    /** One call. */
    method Perform(op: Op, ghost live: map<nat, nat>) returns (p: nat)
      requires Valid() && Legal(Sys(bs, live), h, op)
      modifies this, list
      ensures Valid() && bs == Step(Sys(old(bs), live), h, op).bs
      ensures p == if op.Malloc? then Pointer(old(bs), h, op.n) else 0
      ensures forall i :: 0 <= i < |list| ==> list[i] in old(list) || fresh(list[i])
    {
      match op
      case Malloc(n) => p := Kmalloc(n);
      case Free(q) => Kfree(q); p := 0;
    }

    /** The calls one after the other. */
    method PerformAll(ops: seq<Op>, ghost s: Sys) returns (pointers: seq<nat>)
      requires Valid() && bs == s.bs && LegalRun(s, h, ops)
      modifies this, list
      ensures Valid() && bs == Run(s, h, ops).bs && pointers == Pointers(s, h, ops)
      ensures forall i :: 0 <= i < |list| ==> list[i] in old(list) || fresh(list[i])
      decreases |ops|
    {
      if |ops| == 0 { return []; }
      pointers := PerformAll(ops[..|ops| - 1], s);
      var p := Perform(ops[|ops| - 1], Run(s, h, ops[..|ops| - 1]).live);
      pointers := pointers + [p];
    }

    /** Any sequence of legal calls: the list ends as the blocks of the run, every pointer returned is that of the run,
        no two allocations overlap unless the first was freed, and those live at the end are safe. */
    method Execute(ops: seq<Op>, ghost live: map<nat, nat>) returns (pointers: seq<nat>)
      requires Valid() && SysInv(Sys(bs, live), h, base, end) && LegalRun(Sys(bs, live), h, ops)
      modifies this, list
      ensures Valid() && bs == Run(Sys(old(bs), live), h, ops).bs
      ensures pointers == Pointers(Sys(old(bs), live), h, ops) && NoSharing(ops, pointers)
      ensures Safe(Run(Sys(old(bs), live), h, ops), h, base, end)
      ensures SysInv(Run(Sys(old(bs), live), h, ops), h, base, end)
    {
      ghost var s := Sys(bs, live);
      RunKeeps(s, h, base, end, ops);
      RunSafe(s, h, base, end, ops);
      RunNoSharing(s, h, base, end, ops);
      pointers := PerformAll(ops, s);
    }

    method FreeCount() returns (total: nat)
      requires Valid()
      ensures total == FreeBytes(bs)
    {
      total := 0;
      var curr := head;
      ghost var k: nat := 0;
      TilesAddUp(bs, h, base, end);
      assert Sizes(bs) < TWO64;
      assert bs[..0] == [];
      while curr != null
        invariant k <= |list| && curr == if k < |list| then list[k] else null
        invariant total == FreeBytes(bs[..k])
        decreases |list| - k
      {
        assert bs[..k + 1][..k] == bs[..k];
        FreeBytesPrefix(bs, k + 1);
        if curr.free {
          total := U64(total + curr.size);
        }
        curr := curr.next;
        k := k + 1;
      }
      assert bs[..|bs|] == bs;
    }
  }

  /** Every free block is smaller than n. */
  ghost predicate NoneFree(bs: seq<Blk>, n: nat) {
    forall i :: 0 <= i < |bs| && bs[i].free ==> bs[i].size < n
  }

  /** s with x put in at position k. */
  ghost function Insert<T>(s: seq<T>, k: nat, x: T): (r: seq<T>)
    requires k <= |s|
    ensures |r| == |s| + 1 && r[k] == x
    ensures forall i :: 0 <= i < k ==> r[i] == s[i]
    ensures forall i :: k < i < |r| ==> r[i] == s[i - 1]
    ensures forall y :: y in s ==> y in r
    ensures forall y :: y in r ==> y in s || y == x
  {
    assert s == s[..k] + s[k..];
    s[..k] + [x] + s[k..]
  }

  /** The header says what the block is. */
  ghost predicate Shows(x: Header, b: Blk)
    reads x
  {
    x.addr == b.addr && x.size == b.size && x.free == b.free
  }

  /** The header is what stands at its address. */
  ghost predicate Found(mem: map<nat, Header>, x: Header) {
    x.addr in mem && mem[x.addr] == x
  }

  /** Block b cut after n bytes. */
  ghost function Halves(b: Blk, h: nat, n: nat): seq<Blk>
    requires n + h < b.size
  {
    [Blk(b.addr, n, b.free), Blk(b.addr + h + n, b.size - n - h, true)]
  }

  lemma TakenIsCut(bs: seq<Blk>, k: nat, h: nat, n: nat)
    requires k < |bs| && n <= bs[k].size
    ensures Splice(bs, k, Cut(bs[k], h, n)) ==
            var cut := if bs[k].size - n > h then Splice(bs, k, Halves(bs[k], h, n)) else bs;
            cut[k := cut[k].(free := false)]
  {
  }

  /** No header stands inside a block, where a split puts one. */
  lemma NoHeaderInside(bs: seq<Blk>, h: nat, base: nat, end: nat, k: nat, n: nat)
    requires Tiles(bs, h, base, end) && 0 < h && k < |bs|
    ensures bs[k].size - n > h ==> forall i :: 0 <= i < |bs| ==> bs[i].addr != bs[k].addr + h + n
  {
    forall i | 0 <= i < |bs| && i != k ensures bs[i].End(h) <= bs[k].addr || bs[k].End(h) <= bs[i].addr {
      BlocksApart(bs, h, base, end, i, k);
    }
  }

  lemma FreeBytesPrefix(bs: seq<Blk>, k: nat)
    requires k <= |bs|
    ensures FreeBytes(bs[..k]) <= Sizes(bs)
  {
    assert bs == bs[..k] + bs[k..];
    FreeBytesConcat(bs[..k], bs[k..]);
    FreeBytesBounded(bs);
  }
}
