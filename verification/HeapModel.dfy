/** The kernel heap as the sequence of its blocks in list order; h is the size of a block header. */
module HeapModel {
  import opened Words

  datatype Blk = Blk(addr: nat, size: nat, free: bool) {
    /** The address handed to the caller. */
    function Payload(h: nat): nat { addr + h }

    /** One past the last byte of the block. */
    function End(h: nat): nat { addr + h + size }
  }

  /** The blocks cover the addresses from base to end without gap or overlap. */
  ghost predicate Tiles(bs: seq<Blk>, h: nat, base: nat, end: nat) {
    && 0 < |bs| && bs[0].addr == base && bs[|bs| - 1].End(h) == end
    && forall i, j :: 0 <= i && j == i + 1 < |bs| ==> bs[j].addr == bs[i].End(h)
  }

  predicate Fits(b: Blk, n: nat) {
    b.free && b.size >= n
  }

  /** Where the first-fit scan for n bytes stops: the first block that fits, or |bs|. */
  function FirstFit(bs: seq<Blk>, n: nat, from: nat := 0): (k: nat)
    requires from <= |bs|
    ensures from <= k <= |bs|
    ensures k < |bs| ==> Fits(bs[k], n)
    ensures forall i :: from <= i < k ==> !Fits(bs[i], n)
    decreases |bs| - from
  {
    if from == |bs| || Fits(bs[from], n) then from else FirstFit(bs, n, from + 1)
  }

  /** Taking n bytes from block b: the taken block, and the rest when it can hold a header and a byte. */
  function Cut(b: Blk, h: nat, n: nat): (r: seq<Blk>)
    requires n <= b.size
    ensures 1 <= |r| <= 2
    ensures r[0].addr == b.addr && !r[0].free && n <= r[0].size <= n + h && r[0].size <= b.size
    ensures |r| == 2 ==> r[1].addr == r[0].End(h) && r[1].free && 0 < r[1].size == b.size - n - h && r[0].size == n
    ensures r[|r| - 1].End(h) == b.End(h)
  {
    if b.size - n > h then [Blk(b.addr, n, false), Blk(b.addr + h + n, b.size - n - h, true)]
    else [b.(free := false)]
  }

  function Alloc(bs: seq<Blk>, h: nat, n: nat): seq<Blk> {
    var k := FirstFit(bs, n);
    if n == 0 || k == |bs| then bs else Splice(bs, k, Cut(bs[k], h, n))
  }

  /** bs with block k replaced by the blocks of cut. */
  function Splice(bs: seq<Blk>, k: nat, cut: seq<Blk>): (r: seq<Blk>)
    requires k < |bs|
    ensures |r| == |bs| + |cut| - 1
    ensures forall i :: 0 <= i < k ==> r[i] == bs[i]
    ensures forall i :: k <= i < k + |cut| ==> r[i] == cut[i - k]
    ensures forall i :: k + |cut| <= i < |r| ==> r[i] == bs[i - |cut| + 1]
  {
    bs[..k] + cut + bs[k + 1..]
  }

  function Release(bs: seq<Blk>, k: nat): seq<Blk>
    requires k < |bs|
  {
    bs[k := bs[k].(free := true)]
  }

  // ---------------------------------------------------------------- tiling

  lemma SpliceTiles(bs: seq<Blk>, h: nat, base: nat, end: nat, k: nat, cut: seq<Blk>)
    requires Tiles(bs, h, base, end) && k < |bs|
    requires Tiles(cut, h, bs[k].addr, bs[k].End(h))
    ensures Tiles(Splice(bs, k, cut), h, base, end)
  {
    var r := Splice(bs, k, cut);
    forall i, j | 0 <= i && j == i + 1 < |r| ensures r[j].addr == r[i].End(h) {
      if j < k {
        assert r[i] == bs[i] && r[j] == bs[j];
      } else if j == k {
        assert r[i] == bs[i] && r[j] == cut[0];
      } else if j < k + |cut| {
        assert r[i] == cut[i - k] && r[j] == cut[j - k];
      } else if j == k + |cut| {
        assert r[i] == cut[|cut| - 1] && r[j] == bs[k + 1];
      } else {
        assert r[i] == bs[i - |cut| + 1] && r[j] == bs[j - |cut| + 1];
      }
    }
  }

  lemma AllocTiles(bs: seq<Blk>, h: nat, n: nat, base: nat, end: nat)
    requires Tiles(bs, h, base, end)
    ensures Tiles(Alloc(bs, h, n), h, base, end)
  {
    var k := FirstFit(bs, n);
    if n != 0 && k < |bs| {
      SpliceTiles(bs, h, base, end, k, Cut(bs[k], h, n));
    }
  }

  /** Addresses grow along the list, so a block is known by its address and blocks share no byte. */
  lemma {:induction false} TilesOrdered(bs: seq<Blk>, h: nat, base: nat, end: nat, i: nat, j: nat)
    requires Tiles(bs, h, base, end) && 0 < h && i < j < |bs|
    ensures bs[i].End(h) <= bs[j].addr
    decreases j - i
  {
    if i + 1 == j {
    } else {
      TilesOrdered(bs, h, base, end, i + 1, j);
    }
  }

  lemma TilesWithin(bs: seq<Blk>, h: nat, base: nat, end: nat, k: nat)
    requires Tiles(bs, h, base, end) && 0 < h && k < |bs|
    ensures base <= bs[k].addr && bs[k].End(h) <= end
  {
    if 0 < k { TilesOrdered(bs, h, base, end, 0, k); }
    if k < |bs| - 1 { TilesOrdered(bs, h, base, end, k, |bs| - 1); }
  }

  function Sizes(bs: seq<Blk>): nat {
    if bs == [] then 0 else Sizes(bs[..|bs| - 1]) + bs[|bs| - 1].size
  }

  /** Nothing leaks: headers and payloads together are the heap. */
  lemma {:induction false} TilesAddUp(bs: seq<Blk>, h: nat, base: nat, end: nat)
    requires Tiles(bs, h, base, end)
    ensures base + Sizes(bs) + |bs| * h == end
  {
    var init := bs[..|bs| - 1];
    if init == [] {
      assert Sizes(init) == 0;
    } else {
      assert Tiles(init, h, base, bs[|bs| - 1].addr);
      TilesAddUp(init, h, base, bs[|bs| - 1].addr);
      assert |bs| * h == |init| * h + h;
    }
  }

  // ---------------------------------------------------------------- free bytes

  function FreeBytes(bs: seq<Blk>): nat {
    if bs == [] then 0 else FreeBytes(bs[..|bs| - 1]) + if bs[|bs| - 1].free then bs[|bs| - 1].size else 0
  }

  lemma {:induction false} FreeBytesConcat(a: seq<Blk>, b: seq<Blk>)
    ensures FreeBytes(a + b) == FreeBytes(a) + FreeBytes(b)
  {
    if b == [] {
      assert a + b == a;
    } else {
      FreeBytesConcat(a, b[..|b| - 1]);
      assert (a + b)[..|a + b| - 1] == a + b[..|b| - 1];
    }
  }

  lemma FreeBytesOne(b: Blk)
    ensures FreeBytes([b]) == if b.free then b.size else 0
  {
    assert [b][..0] == [];
  }

  lemma FreeBytesSplice(bs: seq<Blk>, k: nat, cut: seq<Blk>)
    requires k < |bs|
    ensures FreeBytes(Splice(bs, k, cut)) == FreeBytes(bs) - FreeBytes([bs[k]]) + FreeBytes(cut)
  {
    assert bs == bs[..k] + [bs[k]] + bs[k + 1..];
    FreeBytesConcat(bs[..k], [bs[k]]);
    FreeBytesConcat(bs[..k] + [bs[k]], bs[k + 1..]);
    FreeBytesConcat(bs[..k], cut);
    FreeBytesConcat(bs[..k] + cut, bs[k + 1..]);
  }

  lemma FreeBytesCut(b: Blk, h: nat, n: nat)
    requires n <= b.size
    ensures FreeBytes(Cut(b, h, n)) + n <= b.size <= FreeBytes(Cut(b, h, n)) + n + h
  {
    var cut := Cut(b, h, n);
    FreeBytesOne(cut[0]);
    if |cut| == 1 {
      assert cut == [cut[0]];
    } else {
      FreeBytesOne(cut[1]);
      FreeBytesConcat([cut[0]], [cut[1]]);
      assert cut == [cut[0]] + [cut[1]];
    }
  }

  /** kmalloc(n) fails exactly when n is 0 or no free block holds n bytes; a success lowers the free byte count by
      at least n and at most n + h. */
  lemma AllocCost(bs: seq<Blk>, h: nat, n: nat)
    ensures FirstFit(bs, n) == |bs| <==> forall b :: b in bs ==> !Fits(b, n)
    ensures n == 0 || FirstFit(bs, n) == |bs| ==> Alloc(bs, h, n) == bs
    ensures n != 0 && FirstFit(bs, n) < |bs| ==>
              FreeBytes(Alloc(bs, h, n)) + n <= FreeBytes(bs) <= FreeBytes(Alloc(bs, h, n)) + n + h
  {
    var k := FirstFit(bs, n);
    assert k < |bs| ==> bs[k] in bs;
    if n != 0 && k < |bs| {
      FreeBytesOne(bs[k]);
      FreeBytesCut(bs[k], h, n);
      FreeBytesSplice(bs, k, Cut(bs[k], h, n));
    }
  }

  lemma {:induction false} FreeBytesBounded(bs: seq<Blk>)
    ensures FreeBytes(bs) <= Sizes(bs)
  {
    if bs == [] {
    } else {
      FreeBytesBounded(bs[..|bs| - 1]);
    }
  }

  // ---------------------------------------------------------------- runs

  /** A call; Free names the pointer that kmalloc returned, 0 is NULL. */
  datatype Op = Malloc(n: nat) | Free(p: nat)

  /** The blocks, and the size asked for behind every pointer handed out and not freed since. */
  datatype Sys = Sys(bs: seq<Blk>, live: map<nat, nat>)

  /** The block that carries payload address p, or |bs|. */
  function Owner(bs: seq<Blk>, h: nat, p: nat, from: nat := 0): (k: nat)
    requires from <= |bs|
    ensures from <= k <= |bs|
    ensures k < |bs| ==> bs[k].Payload(h) == p
    ensures forall i :: from <= i < k ==> bs[i].Payload(h) != p
    decreases |bs| - from
  {
    if from == |bs| || bs[from].Payload(h) == p then from else Owner(bs, h, p, from + 1)
  }

  /** What kmalloc(n) returns. */
  function Pointer(bs: seq<Blk>, h: nat, n: nat): nat {
    var k := FirstFit(bs, n);
    if n == 0 || k == |bs| then 0 else bs[k].Payload(h)
  }

  function Step(s: Sys, h: nat, op: Op): Sys {
    match op
    case Malloc(n) =>
      var k := FirstFit(s.bs, n);
      if n == 0 || k == |s.bs| then s
      else Sys(Alloc(s.bs, h, n), s.live[s.bs[k].Payload(h) := n])
    case Free(p) =>
      var k := Owner(s.bs, h, p);
      if p == 0 || k == |s.bs| then s else Sys(Release(s.bs, k), s.live - {p})
  }

  /** The caller frees only NULL or an address that a header stands in front of. */
  predicate Legal(s: Sys, h: nat, op: Op) {
    op.Free? && op.p != 0 ==> Owner(s.bs, h, op.p) < |s.bs|
  }

  ghost predicate LegalRun(s: Sys, h: nat, ops: seq<Op>) {
    ops != [] ==> LegalRun(s, h, ops[..|ops| - 1]) && Legal(Run(s, h, ops[..|ops| - 1]), h, ops[|ops| - 1])
  }

  function Run(s: Sys, h: nat, ops: seq<Op>): Sys {
    if ops == [] then s else Step(Run(s, h, ops[..|ops| - 1]), h, ops[|ops| - 1])
  }

  /** What the calls of a run return; kfree returns nothing, shown as 0. */
  function Pointers(s: Sys, h: nat, ops: seq<Op>): (r: seq<nat>)
    ensures |r| == |ops|
  {
    if ops == [] then []
    else
      var init, op := ops[..|ops| - 1], ops[|ops| - 1];
      Pointers(s, h, init) + [if op.Malloc? then Pointer(Run(s, h, init).bs, h, op.n) else 0]
  }

  /** kmem_init: one free block. */
  function Initial(h: nat, base: nat, size: nat): Sys
    requires h <= size
  {
    Sys([Blk(base, size - h, true)], map[])
  }

  /** Pointer p owns a block in use of at least n bytes. */
  ghost predicate Owns(bs: seq<Blk>, h: nat, p: nat, n: nat) {
    var k := Owner(bs, h, p);
    k < |bs| && !bs[k].free && n <= bs[k].size
  }

  /** Every live pointer owns a block in use that is large enough, and every block in use has a live pointer. */
  ghost predicate SysInv(s: Sys, h: nat, base: nat, end: nat) {
    && Tiles(s.bs, h, base, end)
    && (forall p :: p in s.live ==> Owns(s.bs, h, p, s.live[p]))
    && (forall k :: 0 <= k < |s.bs| ==> Held(s.bs, h, s.live, k))
  }

  ghost predicate Held(bs: seq<Blk>, h: nat, live: map<nat, nat>, k: nat)
    requires k < |bs|
  {
    !bs[k].free ==> bs[k].Payload(h) in live
  }

  lemma OwnerIs(bs: seq<Blk>, h: nat, base: nat, end: nat, k: nat)
    requires Tiles(bs, h, base, end) && 0 < h && k < |bs|
    ensures Owner(bs, h, bs[k].Payload(h)) == k
  {
    var j := Owner(bs, h, bs[k].Payload(h));
    if j < k { TilesOrdered(bs, h, base, end, j, k); }
  }

  /** A block that survives a splice keeps its owner. */
  lemma SpliceOwns(bs: seq<Blk>, h: nat, base: nat, end: nat, k: nat, cut: seq<Blk>, p: nat, n: nat)
    requires Tiles(bs, h, base, end) && 0 < h && k < |bs| && Tiles(cut, h, bs[k].addr, bs[k].End(h))
    requires Owns(bs, h, p, n) && Owner(bs, h, p) != k
    ensures Owns(Splice(bs, k, cut), h, p, n)
  {
    SpliceTiles(bs, h, base, end, k, cut);
    var i := Owner(bs, h, p);
    OwnerIs(Splice(bs, k, cut), h, base, end, if i < k then i else i + |cut| - 1);
  }

  lemma SpliceHeld(bs: seq<Blk>, h: nat, live: map<nat, nat>, k: nat, cut: seq<Blk>, n: nat, i: nat)
    requires forall j :: 0 <= j < |bs| ==> Held(bs, h, live, j)
    requires k < |bs| && i < |Splice(bs, k, cut)|
    requires 1 <= |cut| <= 2 && cut[0].addr == bs[k].addr && (|cut| == 2 ==> cut[1].free)
    ensures Held(Splice(bs, k, cut), h, live[bs[k].Payload(h) := n], i)
  {
    if i < k {
      assert Held(bs, h, live, i);
    } else if i >= k + |cut| {
      assert Held(bs, h, live, i - |cut| + 1);
    }
  }

  lemma MallocKeeps(s: Sys, h: nat, base: nat, end: nat, n: nat)
    requires SysInv(s, h, base, end) && 0 < h
    ensures SysInv(Step(s, h, Malloc(n)), h, base, end)
  {
    AllocTiles(s.bs, h, n, base, end);
    var k := FirstFit(s.bs, n);
    if n != 0 && k < |s.bs| {
      var cut := Cut(s.bs[k], h, n);
      var bs := Splice(s.bs, k, cut);
      var live := s.live[s.bs[k].Payload(h) := n];
      OwnerIs(bs, h, base, end, k);
      forall p | p in live ensures Owns(bs, h, p, live[p]) {
        if p != s.bs[k].Payload(h) {
          SpliceOwns(s.bs, h, base, end, k, cut, p, live[p]);
        }
      }
      forall i | 0 <= i < |bs| ensures Held(bs, h, live, i) {
        SpliceHeld(s.bs, h, s.live, k, cut, n, i);
      }
    }
  }

  lemma FreeKeeps(s: Sys, h: nat, base: nat, end: nat, p: nat)
    requires SysInv(s, h, base, end) && 0 < h
    ensures SysInv(Step(s, h, Free(p)), h, base, end)
  {
    var k := Owner(s.bs, h, p);
    if p != 0 && k < |s.bs| {
      var bs, live := Release(s.bs, k), s.live - {p};
      ReleaseTiles(s.bs, h, base, end, k);
      forall q | q in live ensures Owns(bs, h, q, live[q]) {
        assert Owns(s.bs, h, q, s.live[q]);
        OwnerIs(bs, h, base, end, Owner(s.bs, h, q));
      }
      forall j | 0 <= j < |bs| ensures Held(bs, h, live, j) {
        assert Held(s.bs, h, s.live, j);
        OwnerIs(s.bs, h, base, end, j);
      }
    }
  }

  lemma ReleaseTiles(bs: seq<Blk>, h: nat, base: nat, end: nat, k: nat)
    requires Tiles(bs, h, base, end) && k < |bs|
    ensures Tiles(Release(bs, k), h, base, end)
  {
    var r := Release(bs, k);
    assert forall i :: 0 <= i < |bs| ==> r[i].addr == bs[i].addr && r[i].End(h) == bs[i].End(h);
  }

  lemma InitialInv(h: nat, base: nat, size: nat)
    requires h <= size
    ensures SysInv(Initial(h, base, size), h, base, base + size)
  {
  }

  /** The invariant over every run. */
  lemma {:induction false} RunKeeps(s: Sys, h: nat, base: nat, end: nat, ops: seq<Op>)
    requires 0 < h && SysInv(s, h, base, end) && LegalRun(s, h, ops)
    ensures SysInv(Run(s, h, ops), h, base, end)
  {
    if ops == [] {
    } else {
      RunKeeps(s, h, base, end, ops[..|ops| - 1]);
      var before := Run(s, h, ops[..|ops| - 1]);
      match ops[|ops| - 1]
      case Malloc(n) => MallocKeeps(before, h, base, end, n);
      case Free(p) => FreeKeeps(before, h, base, end, p);
    }
  }

  // ---------------------------------------------------------------- which block is taken

  /** p lies behind the header of block k, the lowest free block of at least n bytes. */
  ghost predicate Serves(bs: seq<Blk>, h: nat, n: nat, p: nat, k: nat) {
    && k < |bs| && p == bs[k].addr + h && bs[k].free && n <= bs[k].size
    && forall i :: 0 <= i < k && bs[i].free ==> bs[i].size < n
  }

  /** What kmalloc(n) owes its caller: NULL exactly when n is 0 or every free block is smaller than n, and otherwise the
      lowest free block of n bytes or more. */
  ghost predicate RightAnswer(bs: seq<Blk>, h: nat, n: nat, p: nat) {
    && (p == 0 <==> n == 0 || forall i :: 0 <= i < |bs| && bs[i].free ==> bs[i].size < n)
    && (p != 0 ==> exists k :: Serves(bs, h, n, p, k))
  }

  lemma PointerIs(bs: seq<Blk>, h: nat, n: nat)
    requires 0 < h
    ensures RightAnswer(bs, h, n, Pointer(bs, h, n))
  {
    var k := FirstFit(bs, n);
    assert n != 0 && k < |bs| ==> Serves(bs, h, n, Pointer(bs, h, n), k);
  }

  lemma FirstFitIs(bs: seq<Blk>, n: nat, k: nat)
    requires k < |bs| && Fits(bs[k], n) && forall i :: 0 <= i < k ==> !Fits(bs[i], n)
    ensures FirstFit(bs, n) == k
  {
  }

  lemma SpliceOne(bs: seq<Blk>, k: nat, b: Blk)
    requires k < |bs|
    ensures Splice(bs, k, [b]) == bs[k := b]
  {
  }

  /** A block cut to n bytes and freed is not cut again. */
  lemma CutAgain(b: Blk, h: nat, n: nat)
    requires n <= b.size
    ensures Cut(Cut(b, h, n)[0].(free := true), h, n) == [Cut(b, h, n)[0]]
  {
  }

  lemma Retake(bs: seq<Blk>, h: nat, n: nat, k: nat)
    requires n != 0 && k == FirstFit(bs, n) < |bs|
    ensures var taken := Alloc(bs, h, n);
            && k < |taken| && taken[k].addr == bs[k].addr
            && FirstFit(Release(taken, k), n) == k && Alloc(Release(taken, k), h, n) == taken
  {
    var taken, cut := Alloc(bs, h, n), Cut(bs[k], h, n);
    var freed := Release(taken, k);
    assert taken[k] == cut[0];
    FirstFitIs(freed, n, k);
    CutAgain(bs[k], h, n);
    SpliceOne(freed, k, taken[k]);
  }

  lemma MallocStep(s: Sys, h: nat, n: nat)
    requires Pointer(s.bs, h, n) != 0
    ensures Step(s, h, Malloc(n)) == Sys(Alloc(s.bs, h, n), s.live[Pointer(s.bs, h, n) := n])
    ensures n != 0 && FirstFit(s.bs, n) < |s.bs| && Pointer(s.bs, h, n) == s.bs[FirstFit(s.bs, n)].addr + h
  {
  }

  /** Allocating, freeing and allocating the same size again returns the same pointer and leaves the same blocks,
      so a caller that does this for ever uses up nothing. */
  lemma FreeThenMalloc(s: Sys, h: nat, base: nat, end: nat, n: nat)
    requires Tiles(s.bs, h, base, end) && 0 < h && Pointer(s.bs, h, n) != 0
    ensures var p := Pointer(s.bs, h, n);
            var taken := Step(s, h, Malloc(n));
            var freed := Step(taken, h, Free(p));
            && Pointer(freed.bs, h, n) == p && Step(freed, h, Malloc(n)).bs == taken.bs
            && p in taken.live && p !in freed.live
  {
    var k, p := FirstFit(s.bs, n), Pointer(s.bs, h, n);
    MallocStep(s, h, n);
    var taken := Sys(Alloc(s.bs, h, n), s.live[p := n]);
    AllocTiles(s.bs, h, n, base, end);
    Retake(s.bs, h, n, k);
    OwnerIs(taken.bs, h, base, end, k);
    var freed := Sys(Release(taken.bs, k), taken.live - {p});
    assert Step(taken, h, Free(p)) == freed;
    assert Pointer(freed.bs, h, n) == p;
    MallocStep(freed, h, n);
  }

  /** Freeing a block in use adds its size to the free bytes; freeing it again adds nothing. */
  lemma FreeGains(bs: seq<Blk>, k: nat)
    requires k < |bs|
    ensures FreeBytes(Release(bs, k)) == FreeBytes(bs) + if bs[k].free then 0 else bs[k].size
    ensures Release(Release(bs, k), k) == Release(bs, k)
  {
    FreeBytesSplice(bs, k, [bs[k].(free := true)]);
    FreeBytesOne(bs[k]);
    FreeBytesOne(bs[k].(free := true));
    SpliceOne(bs, k, bs[k].(free := true));
  }

  // ---------------------------------------------------------------- which frees are legal

  /** A header stands in front of p. */
  predicate Fronted(bs: seq<Blk>, h: nat, p: nat) {
    Owner(bs, h, p) < |bs|
  }

  lemma FrontedAt(bs: seq<Blk>, h: nat, k: nat)
    requires k < |bs|
    ensures Fronted(bs, h, bs[k].Payload(h))
  {
  }

  /** Headers never go away, whatever is allocated or freed. */
  lemma StepFronted(s: Sys, h: nat, op: Op, p: nat)
    requires Fronted(s.bs, h, p)
    ensures Fronted(Step(s, h, op).bs, h, p)
  {
    var i, bs := Owner(s.bs, h, p), Step(s, h, op).bs;
    if op.Malloc? && op.n != 0 && FirstFit(s.bs, op.n) < |s.bs| {
      var k := FirstFit(s.bs, op.n);
      FrontedAt(bs, h, if i <= k then i else i + |bs| - |s.bs|);
    } else {
      FrontedAt(bs, h, i);
    }
  }

  lemma PointerFronted(s: Sys, h: nat, n: nat)
    requires Pointer(s.bs, h, n) != 0
    ensures Fronted(Step(s, h, Malloc(n)).bs, h, Pointer(s.bs, h, n))
  {
    FrontedAt(s.bs, h, FirstFit(s.bs, n));
    StepFronted(s, h, Malloc(n), Pointer(s.bs, h, n));
  }

  /** A pointer that kmalloc returned at any time in a run has a header in front of it ever after. */
  lemma {:induction false} ReturnedStaysFronted(s: Sys, h: nat, ops: seq<Op>, p: nat)
    requires p != 0 && p in Pointers(s, h, ops)
    ensures Fronted(Run(s, h, ops).bs, h, p)
  {
    if ops == [] {
    } else {
      var init, op := ops[..|ops| - 1], ops[|ops| - 1];
      if p in Pointers(s, h, init) {
        ReturnedStaysFronted(s, h, init, p);
        StepFronted(Run(s, h, init), h, op, p);
      } else {
        PointerFronted(Run(s, h, init), h, op.n);
      }
    }
  }

  /** Every free of the run names NULL or what kmalloc returned earlier in it. */
  ghost predicate FreesReturned(s: Sys, h: nat, ops: seq<Op>) {
    ops != [] ==>
      var init, op := ops[..|ops| - 1], ops[|ops| - 1];
      FreesReturned(s, h, init) && (op.Free? && op.p != 0 ==> op.p in Pointers(s, h, init))
  }

  /** A caller that frees only returned pointers is legal, even one that frees twice or frees a pointer that has been
      handed out again since. */
  lemma {:induction false} ReturnedIsLegal(s: Sys, h: nat, ops: seq<Op>)
    requires FreesReturned(s, h, ops)
    ensures LegalRun(s, h, ops)
  {
    if ops == [] {
    } else {
      var init, op := ops[..|ops| - 1], ops[|ops| - 1];
      ReturnedIsLegal(s, h, init);
      if op.Free? && op.p != 0 {
        ReturnedStaysFronted(s, h, init, op.p);
      }
    }
  }

  // ---------------------------------------------------------------- live allocations

  lemma BlocksApart(bs: seq<Blk>, h: nat, base: nat, end: nat, i: nat, j: nat)
    requires Tiles(bs, h, base, end) && 0 < h && i < |bs| && j < |bs| && i != j
    ensures bs[i].End(h) <= bs[j].addr || bs[j].End(h) <= bs[i].addr
  {
    if i < j { TilesOrdered(bs, h, base, end, i, j); } else { TilesOrdered(bs, h, base, end, j, i); }
  }

  /** What a pointer that owns n bytes may touch: inside the heap, and clear of every other block and every header. */
  lemma OwnedBytes(bs: seq<Blk>, h: nat, base: nat, end: nat, p: nat, n: nat, k: nat)
    requires Tiles(bs, h, base, end) && 0 < h && Owns(bs, h, p, n) && k < |bs|
    ensures base + h <= p && p + n <= end
    ensures k != Owner(bs, h, p) ==> p + n <= bs[k].addr || bs[k].End(h) <= p
    ensures p + n <= bs[k].addr || bs[k].Payload(h) <= p
  {
    var i := Owner(bs, h, p);
    TilesWithin(bs, h, base, end, i);
    if i != k { BlocksApart(bs, h, base, end, i, k); }
  }

  /** Live allocations lie inside the heap, share no byte, and cover no byte of any block header. */
  ghost predicate Safe(s: Sys, h: nat, base: nat, end: nat) {
    && (forall p :: p in s.live ==> base + h <= p && p + s.live[p] <= end)
    && (forall p, q :: p in s.live && q in s.live && p != q ==> p + s.live[p] <= q || q + s.live[q] <= p)
    && (forall p, k :: p in s.live && 0 <= k < |s.bs| ==>
          p + s.live[p] <= s.bs[k].addr || s.bs[k].Payload(h) <= p)
  }

  lemma InvSafe(s: Sys, h: nat, base: nat, end: nat)
    requires SysInv(s, h, base, end) && 0 < h
    ensures Safe(s, h, base, end)
  {
    forall p, k | p in s.live && 0 <= k < |s.bs|
      ensures base + h <= p && p + s.live[p] <= end
      ensures p + s.live[p] <= s.bs[k].addr || s.bs[k].Payload(h) <= p
    {
      OwnedBytes(s.bs, h, base, end, p, s.live[p], k);
    }
    forall p, q | p in s.live && q in s.live && p != q ensures p + s.live[p] <= q || q + s.live[q] <= p {
      assert Owns(s.bs, h, q, s.live[q]);
      OwnedBytes(s.bs, h, base, end, p, s.live[p], Owner(s.bs, h, q));
    }
  }

  lemma RunSafe(s: Sys, h: nat, base: nat, end: nat, ops: seq<Op>)
    requires SysInv(s, h, base, end) && LegalRun(s, h, ops) && 0 < h
    ensures Safe(Run(s, h, ops), h, base, end)
  {
    RunKeeps(s, h, base, end, ops);
    InvSafe(Run(s, h, ops), h, base, end);
  }

  /** After any run from kmem_init, live allocations are safe. ReturnedIsLegal says which callers this covers. */
  lemma LiveAllocationsSafe(h: nat, base: nat, size: nat, ops: seq<Op>)
    requires 0 < h <= size && LegalRun(Initial(h, base, size), h, ops)
    ensures Safe(Run(Initial(h, base, size), h, ops), h, base, base + size)
  {
    var s := Initial(h, base, size);
    InitialInv(h, base, size);
    RunSafe(s, h, base, base + size, ops);
  }

  // ---------------------------------------------------------------- what the calls return

  /** Call n of a legal run is legal where it is made, and its result and the next state are those there. */
  lemma {:induction false} CallAt(s: Sys, h: nat, ops: seq<Op>, n: nat)
    requires LegalRun(s, h, ops) && n < |ops|
    ensures LegalRun(s, h, ops[..n]) && Legal(Run(s, h, ops[..n]), h, ops[n])
    ensures Run(s, h, ops[..n + 1]) == Step(Run(s, h, ops[..n]), h, ops[n])
    ensures Pointers(s, h, ops)[n] == if ops[n].Malloc? then Pointer(Run(s, h, ops[..n]).bs, h, ops[n].n) else 0
    decreases |ops|
  {
    assert ops[..n + 1][..n] == ops[..n];
    if n + 1 == |ops| {
      assert ops[..n + 1] == ops;
    } else {
      CallAt(s, h, ops[..|ops| - 1], n);
      assert ops[..|ops| - 1][..n] == ops[..n] && ops[..|ops| - 1][..n + 1] == ops[..n + 1];
    }
  }

  /** kmalloc never returns a pointer that is live. */
  lemma FreshPointer(s: Sys, h: nat, base: nat, end: nat, n: nat, p: nat)
    requires SysInv(s, h, base, end) && 0 < h && p in s.live
    ensures Pointer(s.bs, h, n) != p
  {
    assert Owns(s.bs, h, p, s.live[p]);
    var k := FirstFit(s.bs, n);
    if k < |s.bs| { OwnerIs(s.bs, h, base, end, k); }
  }

  /** Pointer p is live with n bytes. */
  predicate Alive(s: Sys, p: nat, n: nat) {
    p in s.live && s.live[p] == n
  }

  lemma StepAlive(s: Sys, h: nat, base: nat, end: nat, op: Op, p: nat, n: nat)
    requires SysInv(s, h, base, end) && 0 < h && Alive(s, p, n) && op != Free(p)
    ensures Alive(Step(s, h, op), p, n)
  {
    if op.Malloc? { FreshPointer(s, h, base, end, op.n, p); }
  }

  /** An allocation stays live until its pointer is freed. */
  lemma {:induction false} AliveUntilFreed(s: Sys, h: nat, base: nat, end: nat, ops: seq<Op>, p: nat, n: nat,
                                           i: nat, j: nat)
    requires SysInv(s, h, base, end) && 0 < h && LegalRun(s, h, ops) && i <= j <= |ops|
    requires Alive(Run(s, h, ops[..i]), p, n) && forall m :: i <= m < j ==> ops[m] != Free(p)
    ensures Alive(Run(s, h, ops[..j]), p, n)
  {
    if i == j {
    } else {
      AliveUntilFreed(s, h, base, end, ops, p, n, i, j - 1);
      CallAt(s, h, ops, j - 1);
      RunKeeps(s, h, base, end, ops[..j - 1]);
      assert ops[j - 1] != Free(p);
      StepAlive(Run(s, h, ops[..j - 1]), h, base, end, ops[j - 1], p, n);
    }
  }

  lemma MallocLive(s: Sys, h: nat, ops: seq<Op>, i: nat)
    requires LegalRun(s, h, ops) && i < |ops| && ops[i].Malloc? && Pointers(s, h, ops)[i] != 0
    ensures Alive(Run(s, h, ops[..i + 1]), Pointers(s, h, ops)[i], ops[i].n)
  {
    CallAt(s, h, ops, i);
  }

  predicate Overlap(p: nat, n: nat, q: nat, m: nat) {
    p < q + m && q < p + n
  }

  /** Calls i and j were given bytes in common. */
  predicate Conflict(ops: seq<Op>, ps: seq<nat>, i: nat, j: nat)
    requires i < |ops| == |ps| && j < |ops|
  {
    ops[i].Malloc? && ops[j].Malloc? && ps[i] != 0 && ps[j] != 0 && Overlap(ps[i], ops[i].n, ps[j], ops[j].n)
  }

  /** When two allocations overlap, the earlier one was freed before the later one was made. */
  ghost predicate NoSharing(ops: seq<Op>, ps: seq<nat>) {
    |ps| == |ops| &&
    forall i, j :: 0 <= i < j < |ops| && Conflict(ops, ps, i, j) ==> exists m :: i < m < j && ops[m] == Free(ps[i])
  }

  /** What kmalloc returns overlaps nothing that is live. */
  lemma MallocApart(s: Sys, h: nat, base: nat, end: nat, n: nat, p: nat)
    requires SysInv(s, h, base, end) && 0 < h && p in s.live && Pointer(s.bs, h, n) != 0
    ensures !Overlap(p, s.live[p], Pointer(s.bs, h, n), n)
  {
    FreshPointer(s, h, base, end, n, p);
    StepAlive(s, h, base, end, Malloc(n), p, s.live[p]);
    MallocKeeps(s, h, base, end, n);
    InvSafe(Step(s, h, Malloc(n)), h, base, end);
    assert Alive(Step(s, h, Malloc(n)), Pointer(s.bs, h, n), n);
  }

  lemma NoSharingAt(s: Sys, h: nat, base: nat, end: nat, ops: seq<Op>, i: nat, j: nat)
    requires SysInv(s, h, base, end) && 0 < h && LegalRun(s, h, ops) && i < j < |ops|
    requires ops[i].Malloc? && ops[j].Malloc? && Pointers(s, h, ops)[i] != 0 && Pointers(s, h, ops)[j] != 0
    requires forall m :: i < m < j ==> ops[m] != Free(Pointers(s, h, ops)[i])
    ensures !Overlap(Pointers(s, h, ops)[i], ops[i].n, Pointers(s, h, ops)[j], ops[j].n)
  {
    var p := Pointers(s, h, ops)[i];
    MallocLive(s, h, ops, i);
    AliveUntilFreed(s, h, base, end, ops, p, ops[i].n, i + 1, j);
    CallAt(s, h, ops, j);
    RunKeeps(s, h, base, end, ops[..j]);
    MallocApart(Run(s, h, ops[..j]), h, base, end, ops[j].n, p);
  }

  /** No byte has two owners, said of the calls and their results alone. */
  lemma RunNoSharing(s: Sys, h: nat, base: nat, end: nat, ops: seq<Op>)
    requires SysInv(s, h, base, end) && 0 < h && LegalRun(s, h, ops)
    ensures NoSharing(ops, Pointers(s, h, ops))
  {
    var ps := Pointers(s, h, ops);
    forall i, j | 0 <= i < j < |ops| && Conflict(ops, ps, i, j)
      ensures exists m :: i < m < j && ops[m] == Free(ps[i])
    {
      if forall m :: i < m < j ==> ops[m] != Free(ps[i]) {
        NoSharingAt(s, h, base, end, ops, i, j);
      }
    }
  }

  // ---------------------------------------------------------------- no coalescing

  /** No block holds n bytes. */
  ghost predicate AllBelow(bs: seq<Blk>, n: nat) {
    forall k :: 0 <= k < |bs| ==> bs[k].size < n
  }

  lemma StepNeverGrows(s: Sys, h: nat, op: Op, n: nat)
    requires AllBelow(s.bs, n)
    ensures AllBelow(Step(s, h, op).bs, n)
  {
    if op.Malloc? && op.n != 0 && FirstFit(s.bs, op.n) < |s.bs| {
      var k := FirstFit(s.bs, op.n);
      var cut := Cut(s.bs[k], h, op.n);
      var bs := Splice(s.bs, k, cut);
      forall i | 0 <= i < |bs| ensures bs[i].size < n {
        assert (i < k && bs[i] == s.bs[i]) || (k <= i < k + |cut| && bs[i] == cut[i - k])
            || (i >= k + |cut| && bs[i] == s.bs[i - |cut| + 1]);
      }
    }
  }

  /** Blocks never grow: once every block is smaller than n, kmalloc(n) fails for ever, whatever is freed. */
  lemma {:induction false} FragmentationIsForever(s: Sys, h: nat, ops: seq<Op>, n: nat)
    requires AllBelow(s.bs, n) && LegalRun(s, h, ops)
    ensures AllBelow(Run(s, h, ops).bs, n)
    ensures FirstFit(Run(s, h, ops).bs, n) == |Run(s, h, ops).bs|
  {
    if ops == [] {
    } else {
      FragmentationIsForever(s, h, ops[..|ops| - 1], n);
      StepNeverGrows(Run(s, h, ops[..|ops| - 1]), h, ops[|ops| - 1], n);
    }
  }
}
