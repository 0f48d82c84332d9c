/** The physical frame allocator over a sequence of "in use" flags, one per frame, with its two wrapping counters. */
module FrameModel {
  import opened Words
  import opened FirstMatch

  const PAGE: nat := 4096
  const INVALID: nat := 0xffff_ffff_ffff_ffff

  /** `free` and `inUse` are the counters kept beside the bitmap, as integers: the kernel's uint64_t counters hold
      them modulo 2^64. */
  datatype Pmm = Pmm(used: seq<bool>, free: int, inUse: int)

  /** How many frames are clear. */
  function Clear(used: seq<bool>): (r: nat)
    ensures r <= |used|
  {
    if used == [] then 0 else Clear(used[..|used| - 1]) + if used[|used| - 1] then 0 else 1
  }

  lemma {:induction false} ClearUpdate(used: seq<bool>, f: nat, b: bool)
    requires f < |used|
    ensures Clear(used[f := b]) == Clear(used) + (if b then 0 else 1) - (if used[f] then 0 else 1)
  {
    var init := used[..|used| - 1];
    if f < |init| {
      ClearUpdate(init, f, b);
      assert used[f := b][..|used| - 1] == init[f := b];
    } else {
      assert used[f := b][..|used| - 1] == init;
    }
  }

  // ---------------------------------------------------------------- calls

  datatype Op = Alloc | Free(phys: nat) | Reserve(base: nat, length: nat)

  datatype Outcome = Outcome(pmm: Pmm, ret: int)

  /** New flags, with the counters moved by d frames. */
  function Move(s: Pmm, used: seq<bool>, d: int): Pmm {
    Pmm(used, s.free + d, s.inUse - d)
  }

  function AllocFrame(s: Pmm): Outcome {
    var f := First(s.used, false);
    if f == |s.used| then Outcome(s, INVALID) else Outcome(Move(s, s.used[f := true], -1), f * PAGE)
  }

  function FreeFrame(s: Pmm, phys: nat): Outcome {
    if phys % PAGE != 0 || phys / PAGE >= |s.used| || !s.used[phys / PAGE] then Outcome(s, 0)
    else Outcome(Move(s, s.used[phys / PAGE := false], 1), 1)
  }

  /** used with the frames from start up to (not including) stop set. */
  function Filled(used: seq<bool>, start: nat, stop: nat): (r: seq<bool>)
    ensures |r| == |used|
    ensures forall f :: 0 <= f < |used| ==> r[f] == (used[f] || start <= f < stop)
  {
    seq(|used|, f requires 0 <= f < |used| => used[f] || start <= f < stop)
  }

  lemma FilledIs(used: seq<bool>, r: seq<bool>, start: nat, stop: nat)
    requires |r| == |used| && forall f :: 0 <= f < |used| ==> r[f] == (used[f] || start <= f < stop)
    ensures r == Filled(used, start, stop)
  {
  }

  function ReserveRange(s: Pmm, base: nat, length: nat): Outcome {
    var start := base / PAGE;
    var used := Filled(s.used, start, start + length / PAGE);
    Outcome(Move(s, used, Clear(used) - Clear(s.used)), 1)
  }

  function Step(s: Pmm, op: Op): Outcome {
    match op
    case Alloc => AllocFrame(s)
    case Free(phys) => FreeFrame(s, phys)
    case Reserve(base, length) => ReserveRange(s, base, length)
  }

  function Run(s: Pmm, ops: seq<Op>): Pmm {
    if ops == [] then s else Step(Run(s, ops[..|ops| - 1]), ops[|ops| - 1]).pmm
  }

  // ---------------------------------------------------------------- counters

  /** Both counters agree with the flags up to the constants gap and total. */
  ghost predicate Books(s: Pmm, gap: int, total: int) {
    s.free == Clear(s.used) - gap && s.inUse == total - Clear(s.used)
  }

  lemma BooksMove(s: Pmm, r: Pmm, gap: int, total: int)
    requires Books(s, gap, total) && Books(r, gap, total)
    ensures r == Move(s, r.used, Clear(r.used) - Clear(s.used))
  {
  }

  lemma StepKeepsBooks(s: Pmm, op: Op, gap: int, total: int)
    requires Books(s, gap, total)
    ensures Books(Step(s, op).pmm, gap, total)
  {
    match op
    case Alloc =>
      var f := First(s.used, false);
      if f < |s.used| {
        ClearUpdate(s.used, f, true);
      }
    case Free(phys) =>
      if phys % PAGE == 0 && phys / PAGE < |s.used| && s.used[phys / PAGE] {
        ClearUpdate(s.used, phys / PAGE, false);
      }
    case Reserve(base, length) =>
  }

  /** Over every run the free counter keeps its distance from the number of clear frames. */
  lemma {:induction false} RunKeepsBooks(s: Pmm, ops: seq<Op>, gap: int, total: int)
    requires Books(s, gap, total)
    ensures Books(Run(s, ops), gap, total) && |Run(s, ops).used| == |s.used|
  {
    if ops == [] {
    } else {
      RunKeepsBooks(s, ops[..|ops| - 1], gap, total);
      StepKeepsBooks(Run(s, ops[..|ops| - 1]), ops[|ops| - 1], gap, total);
    }
  }

  /** In the kernel's wrapped counters: they add up to total - gap, and the clear frames exceed the free counter
      by gap, modulo 2^64. */
  lemma WrappedBooks(s: Pmm, gap: nat, total: int)
    requires Books(s, gap, total)
    ensures U64(U64(s.free) + U64(s.inUse)) == U64(total - gap)
    ensures U64(Clear(s.used) - U64(s.free)) == U64(gap)
  {
    U64Sum(s.free, U64(s.inUse));
    U64Sum(s.inUse, s.free);
    U64Difference(Clear(s.used), s.free);
  }

  // ---------------------------------------------------------------- what a call gives its caller

  /** r is s but for frame f, which is now in use or clear as b says, with both counters moved to match. */
  ghost predicate OneFrame(s: Pmm, r: Pmm, f: nat, b: bool) {
    && f < |s.used| == |r.used| && s.used[f] == !b && r.used[f] == b
    && (forall g :: 0 <= g < |s.used| && g != f ==> r.used[g] == s.used[g])
    && Clear(r.used) == Clear(s.used) + (if b then -1 else 1)
    && r.free == s.free + (if b then -1 else 1) && r.inUse == s.inUse - (if b then -1 else 1)
  }

  /** Allocation fails exactly when every frame is in use, and then changes nothing; otherwise it takes the lowest clear
      frame and no other. */
  lemma AllocTakes(s: Pmm)
    ensures var c := AllocFrame(s);
            if forall f :: 0 <= f < |s.used| ==> s.used[f] then c == Outcome(s, INVALID)
            else
              && c.ret % PAGE == 0 && 0 <= c.ret && OneFrame(s, c.pmm, c.ret / PAGE, true)
              && forall g :: 0 <= g < c.ret / PAGE ==> s.used[g]
  {
    var f := First(s.used, false);
    if f < |s.used| { ClearUpdate(s.used, f, true); }
  }

  /** A frame is given back exactly when phys is the address of a frame in use: then it is clear, and the next
      allocation returns it or a lower one. Everything else is refused and changes nothing. */
  lemma FreeGives(s: Pmm, phys: nat)
    ensures var c := FreeFrame(s, phys);
            if phys % PAGE == 0 && phys / PAGE < |s.used| && s.used[phys / PAGE] then
              && c.ret == 1 && OneFrame(s, c.pmm, phys / PAGE, false)
              && AllocFrame(c.pmm).ret == Min(phys / PAGE, First(s.used, false)) * PAGE
            else c == Outcome(s, 0)
  {
    if phys % PAGE == 0 && phys / PAGE < |s.used| && s.used[phys / PAGE] {
      var f, used := phys / PAGE, s.used[phys / PAGE := false];
      ClearUpdate(s.used, f, false);
      var g := Min(f, First(s.used, false));
      assert !used[g] && forall i :: 0 <= i < g ==> used[i];
      assert First(used, false) == g;
    }
  }

  /** Freeing what was just allocated undoes the allocation, counters included. */
  lemma AllocThenFree(s: Pmm)
    requires AllocFrame(s).ret != INVALID
    ensures AllocFrame(s).ret >= 0 && FreeFrame(AllocFrame(s).pmm, AllocFrame(s).ret) == Outcome(s, 1)
  {
    var f := First(s.used, false);
    assert f * PAGE / PAGE == f;
    assert s.used[f := true][f := false] == s.used;
  }

  /** x rounded down to whole frames. */
  function Down(x: nat): nat {
    x - x % PAGE
  }

  lemma DownFrames(base: nat, length: nat, f: nat)
    ensures base / PAGE <= f < base / PAGE + length / PAGE <==> Down(base) <= f * PAGE < Down(base) + Down(length)
  {
    assert Down(base) == base / PAGE * PAGE && Down(length) == length / PAGE * PAGE;
  }

  /** A reservation sets the frames of the range with both its start and its length rounded down, keeps all others, and
      counts out the frames that were clear. */
  lemma ReserveSets(s: Pmm, base: nat, length: nat)
    ensures var c := ReserveRange(s, base, length);
            && c.ret == 1 && |c.pmm.used| == |s.used|
            && (forall f :: 0 <= f < |s.used| ==>
                  c.pmm.used[f] == (s.used[f] || Down(base) <= f * PAGE < Down(base) + Down(length)))
            && s.free - c.pmm.free == c.pmm.inUse - s.inUse == Clear(s.used) - Clear(c.pmm.used)
  {
    forall f | 0 <= f < |s.used|
      ensures base / PAGE <= f < base / PAGE + length / PAGE <==> Down(base) <= f * PAGE < Down(base) + Down(length)
    {
      DownFrames(base, length, f);
    }
  }

  /** Every byte of the range lies in a frame in use. */
  ghost predicate InUse(used: seq<bool>, base: nat, length: nat) {
    forall a :: base <= a < base + length && a / PAGE < |used| ==> used[a / PAGE]
  }

  function AllClear(n: nat): (used: seq<bool>)
    ensures |used| == n && forall f :: 0 <= f < n ==> !used[f]
  {
    seq(n, _ => false)
  }

  /** A reservation always answers success; it covers every byte of a range inside memory, whatever was in use before,
      exactly when start and length are whole frames. */
  lemma ReserveCoversIff(base: nat, length: nat, frames: nat)
    requires 0 < length && base + length <= frames * PAGE
    ensures (forall s: Pmm :: |s.used| == frames ==> InUse(ReserveRange(s, base, length).pmm.used, base, length)) <==>
            base % PAGE == 0 && length % PAGE == 0
  {
    if base % PAGE == 0 && length % PAGE == 0 {
      forall s: Pmm | |s.used| == frames ensures InUse(ReserveRange(s, base, length).pmm.used, base, length) {
        forall a | base <= a < base + length ensures base / PAGE <= a / PAGE < base / PAGE + length / PAGE {
          AlignedInside(base, length, a);
        }
      }
    } else {
      var s, a := Pmm(AllClear(frames), frames, 0), base + length - 1;
      UnalignedOutside(base, length);
      assert a / PAGE < frames;
      assert !ReserveRange(s, base, length).pmm.used[a / PAGE];
      assert !InUse(ReserveRange(s, base, length).pmm.used, base, length);
    }
  }

  lemma AlignedInside(base: nat, length: nat, a: nat)
    requires base % PAGE == 0 && length % PAGE == 0 && base <= a < base + length
    ensures base / PAGE <= a / PAGE < base / PAGE + length / PAGE
  {
  }

  lemma UnalignedOutside(base: nat, length: nat)
    requires 0 < length && (base % PAGE != 0 || length % PAGE != 0)
    ensures (base + length - 1) / PAGE >= base / PAGE + length / PAGE
  {
    assert base + length - 1 >= (base / PAGE + length / PAGE) * PAGE;
  }

  // ---------------------------------------------------------------- boot

  datatype Region = Region(base: nat, length: nat, usable: bool)

  predicate InRegion(r: Region, f: nat) {
    r.usable && r.base / PAGE <= f < r.base / PAGE + r.length / PAGE
  }

  /** Every frame that the region gives lies inside it. */
  ghost predicate FramesInside(r: Region) {
    forall f: nat :: InRegion(r, f) ==> r.base <= f * PAGE && (f + 1) * PAGE <= r.base + r.length
  }

  /** A region gives its frames with start and length both rounded down, and only if it is usable. They lie inside it
      exactly when its start is a whole frame or it has no whole frame. */
  lemma RegionInsideIff(r: Region)
    ensures r.usable ==> (FramesInside(r) <==> r.base % PAGE == 0 || r.length < PAGE)
    ensures forall f: nat :: InRegion(r, f) <==> r.usable && Down(r.base) <= f * PAGE < Down(r.base) + Down(r.length)
  {
    forall f: nat ensures InRegion(r, f) <==> r.usable && Down(r.base) <= f * PAGE < Down(r.base) + Down(r.length) {
      DownFrames(r.base, r.length, f);
    }
    if r.usable && r.base % PAGE != 0 && r.length >= PAGE {
      assert InRegion(r, r.base / PAGE);
    }
  }

  ghost predicate Covered(regions: seq<Region>, f: nat) {
    exists i :: 0 <= i < |regions| && InRegion(regions[i], f)
  }

  /** What the 0xFF fill leaves: it covers whole bytes only, so up to seven last frames keep the storage's bits. */
  function Blanked(storage: seq<bool>): (r: seq<bool>)
    ensures |r| == |storage|
    ensures forall f :: 0 <= f < |storage| ==> r[f] == (storage[f] || f < |storage| / 8 * 8)
  {
    seq(|storage|, f requires 0 <= f < |storage| => storage[f] || f < |storage| / 8 * 8)
  }

  /** The flags after boot: frame 0 and every frame that no usable region covers are in use. */
  ghost predicate Booted(storage: seq<bool>, regions: seq<Region>, used: seq<bool>) {
    && |used| == |storage|
    && forall f :: 0 <= f < |used| ==> used[f] == (f == 0 || (Blanked(storage)[f] && !Covered(regions, f)))
  }

  /** Which frames boot leaves clear: not frame 0, and otherwise those of usable regions and those behind the last whole
      byte whose storage bits happened to be clear. */
  lemma BootClearIff(storage: seq<bool>, regions: seq<Region>, used: seq<bool>, f: nat)
    requires Booted(storage, regions, used) && f < |storage|
    ensures !used[f] <==> 0 < f && (Covered(regions, f) || (f >= |storage| / 8 * 8 && !storage[f]))
  {
  }

  /** Frame 0 is counted out of the free frames whether or not it was ever counted in. */
  ghost function BootGap(storage: seq<bool>, regions: seq<Region>): nat {
    Clear(Blanked(storage)) + if 0 < |storage| && (Covered(regions, 0) || !Blanked(storage)[0]) then 0 else 1
  }

  lemma {:induction false} NoneClear(used: seq<bool>)
    ensures Clear(used) == 0 <==> forall f :: 0 <= f < |used| ==> used[f]
  {
    if used == [] {
    } else {
      var init := used[..|used| - 1];
      NoneClear(init);
      assert forall f :: 0 <= f < |init| ==> init[f] == used[f];
    }
  }

  /** The free counter is exact exactly when a usable region covers frame 0 and the storage bits behind the last
      whole byte were set; with a whole number of bytes the counter is otherwise one short. */
  lemma BootGapExact(storage: seq<bool>, regions: seq<Region>)
    ensures BootGap(storage, regions) == 0 <==>
            && 0 < |storage| && Covered(regions, 0)
            && forall f :: |storage| / 8 * 8 <= f < |storage| ==> storage[f]
    ensures |storage| % 8 == 0 && 0 < |storage| ==> BootGap(storage, regions) == if Covered(regions, 0) then 0 else 1
  {
    var blank := Blanked(storage);
    NoneClear(blank);
    assert (forall f :: 0 <= f < |storage| ==> blank[f]) <==>
           forall f :: |storage| / 8 * 8 <= f < |storage| ==> storage[f];
  }

  // ---------------------------------------------------------------- ownership

  /** The allocator with the frames handed out and not freed since, and the frames reserved while clear. */
  datatype Sys = Sys(pmm: Pmm, held: set<nat>, reserved: set<nat>)

  function StepSys(s: Sys, op: Op): Sys {
    var pmm := Step(s.pmm, op).pmm;
    match op
    case Alloc =>
      var f := First(s.pmm.used, false);
      Sys(pmm, if f < |s.pmm.used| then s.held + {f} else s.held, s.reserved)
    case Free(phys) => Sys(pmm, s.held - {phys / PAGE}, s.reserved)
    case Reserve(base, length) =>
      Sys(pmm, s.held, s.reserved + set f | 0 <= f < |s.pmm.used| && !s.pmm.used[f] && pmm.used[f])
  }

  /** The caller frees only frames it was handed. */
  predicate Legal(s: Sys, op: Op) {
    op.Free? ==> op.phys % PAGE == 0 && op.phys / PAGE in s.held
  }

  function RunSys(s: Sys, ops: seq<Op>): Sys {
    if ops == [] then s else StepSys(RunSys(s, ops[..|ops| - 1]), ops[|ops| - 1])
  }

  ghost predicate LegalRun(s: Sys, ops: seq<Op>) {
    ops != [] ==> LegalRun(s, ops[..|ops| - 1]) && Legal(RunSys(s, ops[..|ops| - 1]), ops[|ops| - 1])
  }

  /** Frames held or reserved are in use; frames ever clear after boot were clear at boot. */
  ghost predicate SysInv(s: Sys, boot: seq<bool>) {
    && |s.pmm.used| == |boot|
    && s.held !! s.reserved
    && (forall f :: f in s.held || f in s.reserved ==> f < |boot| && s.pmm.used[f] && !boot[f])
    && (forall f :: 0 <= f < |boot| && !s.pmm.used[f] ==> !boot[f])
  }

  lemma StepKeeps(s: Sys, boot: seq<bool>, op: Op)
    requires SysInv(s, boot) && Legal(s, op)
    ensures SysInv(StepSys(s, op), boot)
  {
  }

  lemma {:induction false} RunKeeps(pmm: Pmm, ops: seq<Op>)
    requires LegalRun(Sys(pmm, {}, {}), ops)
    ensures SysInv(RunSys(Sys(pmm, {}, {}), ops), pmm.used)
  {
    if ops == [] {
    } else {
      RunKeeps(pmm, ops[..|ops| - 1]);
      StepKeeps(RunSys(Sys(pmm, {}, {}), ops[..|ops| - 1]), pmm.used, ops[|ops| - 1]);
    }
  }

  /** In every run from boot that frees only what it was handed, the next allocation fails exactly when no frame is
      clear; otherwise it hands out the lowest clear frame, which nobody holds, which was never reserved while clear,
      is not frame 0, and lies in a usable region or in the unblanked tail. */
  lemma AllocationIsExclusive(storage: seq<bool>, regions: seq<Region>, pmm: Pmm, ops: seq<Op>)
    requires Booted(storage, regions, pmm.used) && |storage| * PAGE < TWO64
    requires LegalRun(Sys(pmm, {}, {}), ops)
    ensures var s := RunSys(Sys(pmm, {}, {}), ops);
            var ret := AllocFrame(s.pmm).ret;
            && |s.pmm.used| == |storage|
            && (ret == INVALID <==> forall f :: 0 <= f < |s.pmm.used| ==> s.pmm.used[f])
            && (ret != INVALID ==>
                  && ret % PAGE == 0
                  && var f := ret / PAGE;
                     && 0 < f < |s.pmm.used| && !s.pmm.used[f] && (forall g :: 0 <= g < f ==> s.pmm.used[g])
                     && f !in s.held && f !in s.reserved
                     && (Covered(regions, f) || (!storage[f] && f >= |storage| / 8 * 8)))
  {
    RunKeeps(pmm, ops);
    var s := RunSys(Sys(pmm, {}, {}), ops);
    var f := First(s.pmm.used, false);
    assert f < |s.pmm.used| ==> f * PAGE / PAGE == f && f * PAGE % PAGE == 0;
  }

  // ---------------------------------------------------------------- what the calls return

  /** What the calls of a run return. */
  function Returns(pmm: Pmm, ops: seq<Op>): (r: seq<int>)
    ensures |r| == |ops|
  {
    if ops == [] then []
    else Returns(pmm, ops[..|ops| - 1]) + [Step(Run(pmm, ops[..|ops| - 1]), ops[|ops| - 1]).ret]
  }

  lemma {:induction false} ReturnsAt(pmm: Pmm, ops: seq<Op>, i: nat)
    requires i < |ops|
    ensures Returns(pmm, ops)[i] == Step(Run(pmm, ops[..i]), ops[i]).ret
    decreases |ops|
  {
    if i == |ops| - 1 {
    } else {
      ReturnsAt(pmm, ops[..|ops| - 1], i);
      assert ops[..|ops| - 1][..i] == ops[..i];
    }
  }

  lemma {:induction false} SysRuns(s: Sys, ops: seq<Op>)
    ensures RunSys(s, ops).pmm == Run(s.pmm, ops)
  {
    if ops == [] {
    } else {
      SysRuns(s, ops[..|ops| - 1]);
    }
  }

  lemma {:induction false} LegalPrefix(s: Sys, ops: seq<Op>, n: nat)
    requires LegalRun(s, ops) && n <= |ops|
    ensures LegalRun(s, ops[..n]) && (n < |ops| ==> Legal(RunSys(s, ops[..n]), ops[n]))
    decreases |ops|
  {
    if n == |ops| {
      assert ops[..n] == ops;
    } else {
      LegalPrefix(s, ops[..|ops| - 1], n);
      assert ops[..|ops| - 1][..n] == ops[..n];
    }
  }

  lemma SysNext(s: Sys, ops: seq<Op>, n: nat)
    requires n < |ops|
    ensures RunSys(s, ops[..n + 1]) == StepSys(RunSys(s, ops[..n]), ops[n])
  {
    assert ops[..n + 1][..n] == ops[..n];
  }

  /** ops[m] frees the frame at phys. */
  predicate Frees(op: Op, phys: int) {
    op.Free? && op.phys == phys
  }

  /** A frame stays held until it is freed. */
  lemma {:induction false} HeldUntilFreed(s: Sys, ops: seq<Op>, f: nat, i: nat, n: nat)
    requires LegalRun(s, ops) && i <= n <= |ops| && f in RunSys(s, ops[..i]).held
    requires forall m :: i <= m < n ==> !Frees(ops[m], f * PAGE)
    ensures f in RunSys(s, ops[..n]).held
  {
    if i == n {
    } else {
      HeldUntilFreed(s, ops, f, i, n - 1);
      LegalPrefix(s, ops, n - 1);
      SysNext(s, ops, n - 1);
      assert !Frees(ops[n - 1], f * PAGE);
    }
  }

  /** What an allocation returns is the frame it adds to those held. */
  lemma AllocHolds(pmm: Pmm, ops: seq<Op>, i: nat)
    requires i < |ops| && ops[i].Alloc? && LegalRun(Sys(pmm, {}, {}), ops) && Returns(pmm, ops)[i] != INVALID
    ensures var f, s := Returns(pmm, ops)[i] / PAGE, Sys(pmm, {}, {});
            && Returns(pmm, ops)[i] == f * PAGE
            && f !in RunSys(s, ops[..i]).held && f in RunSys(s, ops[..i + 1]).held
  {
    var s := Sys(pmm, {}, {});
    ReturnsAt(pmm, ops, i);
    SysRuns(s, ops[..i]);
    LegalPrefix(s, ops, i);
    RunKeeps(pmm, ops[..i]);
    SysNext(s, ops, i);
    var f := First(RunSys(s, ops[..i]).pmm.used, false);
    assert f * PAGE / PAGE == f;
  }

  /** Between two allocations that return the same frame, it was freed. */
  ghost predicate OneOwner(ops: seq<Op>, returned: seq<int>) {
    |returned| == |ops| &&
    forall i, j :: 0 <= i < j < |ops| && ops[i].Alloc? && ops[j].Alloc? && returned[i] == returned[j] != INVALID ==>
      exists m :: i < m < j && Frees(ops[m], returned[i])
  }

  /** No frame has two owners, said of the calls and their results alone: in a run that frees only what it was handed,
      a frame is handed out again only after it was freed. */
  lemma RunOneOwner(pmm: Pmm, ops: seq<Op>)
    requires LegalRun(Sys(pmm, {}, {}), ops)
    ensures OneOwner(ops, Returns(pmm, ops))
  {
    var r := Returns(pmm, ops);
    forall i, j | 0 <= i < j < |ops| && ops[i].Alloc? && ops[j].Alloc? && r[i] == r[j] != INVALID
      ensures exists m :: i < m < j && Frees(ops[m], r[i])
    {
      AllocHolds(pmm, ops, i);
      AllocHolds(pmm, ops, j);
      if forall m :: i < m < j ==> !Frees(ops[m], r[i]) {
        HeldUntilFreed(Sys(pmm, {}, {}), ops, r[i] / PAGE, i + 1, j);
      }
    }
  }

  /** Every frame handed out is a whole frame other than frame 0, from a usable region or the unblanked tail. */
  ghost predicate OnlyUsable(storage: seq<bool>, regions: seq<Region>, ops: seq<Op>, returned: seq<int>) {
    |returned| == |ops| &&
    forall i :: 0 <= i < |ops| && ops[i].Alloc? && returned[i] != INVALID ==>
      && returned[i] % PAGE == 0 && 0 < returned[i] / PAGE < |storage|
      && var f := returned[i] / PAGE; Covered(regions, f) || (!storage[f] && f >= |storage| / 8 * 8)
  }

  lemma RunOnlyUsable(storage: seq<bool>, regions: seq<Region>, pmm: Pmm, ops: seq<Op>)
    requires Booted(storage, regions, pmm.used) && |storage| * PAGE < TWO64 && LegalRun(Sys(pmm, {}, {}), ops)
    ensures OnlyUsable(storage, regions, ops, Returns(pmm, ops))
  {
    forall i | 0 <= i < |ops| && ops[i].Alloc?
      ensures Returns(pmm, ops)[i] == AllocFrame(RunSys(Sys(pmm, {}, {}), ops[..i]).pmm).ret
      ensures LegalRun(Sys(pmm, {}, {}), ops[..i])
    {
      ReturnsAt(pmm, ops, i);
      SysRuns(Sys(pmm, {}, {}), ops[..i]);
      LegalPrefix(Sys(pmm, {}, {}), ops, i);
    }
    forall i | 0 <= i < |ops| && ops[i].Alloc? && Returns(pmm, ops)[i] != INVALID
      ensures var r := Returns(pmm, ops)[i];
              && r % PAGE == 0 && 0 < r / PAGE < |storage|
              && (Covered(regions, r / PAGE) || (!storage[r / PAGE] && r / PAGE >= |storage| / 8 * 8))
    {
      AllocationIsExclusive(storage, regions, pmm, ops[..i]);
    }
  }
}
