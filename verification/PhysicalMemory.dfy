/** pmm.c: the frame flags as bits in a byte array, with the loops that set, clear and scan them. */
module PhysicalMemory {
  import opened Words
  import opened FirstMatch
  import opened FrameModel

  /** 1u << k, for k below 8. */
  function Mask(k: nat): (r: bv8)
    requires k < 8
    ensures r == 1 << k
  {
    match k
    case 0 => 0x01
    case 1 => 0x02
    case 2 => 0x04
    case 3 => 0x08
    case 4 => 0x10
    case 5 => 0x20
    case 6 => 0x40
    case _ => 0x80
  }

  predicate Test(b: bv8, k: nat)
    requires k < 8
  {
    b & Mask(k) != 0
  }

  /** bitmap_set, bitmap_clear: one bit changes, the other seven stay. */
  function SetBit(b: bv8, k: nat): bv8
    requires k < 8
  {
    b | Mask(k)
  }

  function ClearBit(b: bv8, k: nat): bv8
    requires k < 8
  {
    b & !Mask(k)
  }

  lemma Masks(k: nat, j: nat)
    requires k < 8 && j < 8
    ensures Mask(k) != 0
    ensures k != j ==> Mask(k) & Mask(j) == 0
  {
  }

  lemma MaskedBits(b: bv8, m: bv8, n: bv8)
    ensures (b | m) & m == m && (b & !m) & m == 0
    ensures m & n == 0 ==> (b | m) & n == b & n && (b & !m) & n == b & n
  {
  }

  lemma BitFrames(b: bv8, k: nat, j: nat)
    requires k < 8 && j < 8
    ensures Test(SetBit(b, k), j) == (j == k || Test(b, j))
    ensures Test(ClearBit(b, k), j) == (j != k && Test(b, j))
  {
    Masks(k, j);
    MaskedBits(b, Mask(k), Mask(j));
  }

  lemma AllBits(j: nat)
    requires j < 8
    ensures Test(0xFF, j)
  {
  }

  predicate BitAt(bitmap: seq<bv8>, f: nat)
    requires f < 8 * |bitmap|
  {
    Test(bitmap[f / 8], f % 8)
  }

  lemma SetBitAt(bitmap: seq<bv8>, f: nat, g: nat)
    requires f < 8 * |bitmap| && g < 8 * |bitmap|
    ensures BitAt(bitmap[f / 8 := SetBit(bitmap[f / 8], f % 8)], g) == (g == f || BitAt(bitmap, g))
    ensures BitAt(bitmap[f / 8 := ClearBit(bitmap[f / 8], f % 8)], g) == (g != f && BitAt(bitmap, g))
  {
    if g / 8 == f / 8 {
      BitFrames(bitmap[f / 8], f % 8, g % 8);
    }
  }

  /** The bitmap holds these flags, lowest bit of byte 0 first. */
  ghost predicate Shows(bitmap: seq<bv8>, used: seq<bool>) {
    |used| <= 8 * |bitmap| && forall f {:trigger BitAt(bitmap, f)} :: 0 <= f < |used| ==> used[f] == BitAt(bitmap, f)
  }

  lemma ShowsUpdate(bitmap: seq<bv8>, used: seq<bool>, f: nat)
    requires Shows(bitmap, used) && f < 8 * |bitmap|
    ensures Shows(bitmap[f / 8 := SetBit(bitmap[f / 8], f % 8)], if f < |used| then used[f := true] else used)
    ensures Shows(bitmap[f / 8 := ClearBit(bitmap[f / 8], f % 8)], if f < |used| then used[f := false] else used)
  {
    var on := bitmap[f / 8 := SetBit(bitmap[f / 8], f % 8)];
    var off := bitmap[f / 8 := ClearBit(bitmap[f / 8], f % 8)];
    forall g | 0 <= g < |used|
      ensures BitAt(on, g) == (g == f || used[g]) && BitAt(off, g) == (g != f && used[g])
    {
      assert BitAt(bitmap, g) == used[g];
      SetBitAt(bitmap, f, g);
    }
  }

  class FrameAllocator {
    const bitmap: array<bv8>
    const frameCount: nat
    var freeFrames: nat
    var usedFrames: nat
    ghost var pmm: Pmm
    /** By how much the clear frames exceed the free counter: fixed at boot. */
    ghost var gap: nat

    ghost predicate Mapped()
      reads this, bitmap
    {
      && 1 <= bitmap.Length && |pmm.used| == frameCount && frameCount * PAGE < TWO64
      && Shows(bitmap[..], pmm.used)
    }

    /** The uint64_t counters hold the integer counters modulo 2^64. */
    ghost predicate Counted()
      reads this
    {
      freeFrames == Lap(pmm.free) && usedFrames == Lap(pmm.inUse)
    }

    ghost predicate Valid()
      reads this, bitmap
    {
      Mapped() && Counted() && gap <= frameCount + 1 && Books(pmm, gap, frameCount + gap)
    }

    /** In every state: the two counters add up to the frame count, and the clear frames exceed the free counter by
        the gap, modulo 2^64. */
    lemma CounterLaws()
      requires Valid()
      ensures U64(freeFrames + usedFrames) == frameCount
      ensures U64(Clear(pmm.used) - freeFrames) == gap
    {
      LapIsU64(pmm.free);
      LapIsU64(pmm.inUse);
      WrappedBooks(pmm, gap, frameCount + gap);
    }

    method SetFrame(f: nat)
      requires Mapped() && f < 8 * bitmap.Length
      modifies this`pmm, bitmap
      ensures Mapped() && pmm == old(pmm).(used := if f < frameCount then old(pmm).used[f := true] else old(pmm).used)
    {
      ShowsUpdate(bitmap[..], pmm.used, f);
      ghost var before := bitmap[..];
      bitmap[f / 8] := SetBit(bitmap[f / 8], f % 8);
      assert bitmap[..] == before[f / 8 := SetBit(before[f / 8], f % 8)];
      pmm := pmm.(used := if f < frameCount then pmm.used[f := true] else pmm.used);
    }

    method ClearFrame(f: nat)
      requires Mapped() && f < frameCount
      modifies this`pmm, bitmap
      ensures Mapped() && pmm == old(pmm).(used := old(pmm).used[f := false])
    {
      ShowsUpdate(bitmap[..], pmm.used, f);
      ghost var before := bitmap[..];
      bitmap[f / 8] := ClearBit(bitmap[f / 8], f % 8);
      assert bitmap[..] == before[f / 8 := ClearBit(before[f / 8], f % 8)];
      pmm := pmm.(used := pmm.used[f := false]);
    }

    method TestFrame(f: nat) returns (b: bool)
      requires Mapped() && f < frameCount
      ensures b == pmm.used[f]
    {
      b := Test(bitmap[f / 8], f % 8);
      assert BitAt(bitmap[..], f) == b;
    }

    /** free_frames += d, used_frames -= d. */
    method Count(d: int)
      requires Counted() && -1 <= d <= 1
      requires -(TWO63 as int) < pmm.free < TWO63 && -(TWO63 as int) < pmm.inUse < TWO63
      modifies this`freeFrames, this`usedFrames, this`pmm
      ensures Counted() && pmm == Move(old(pmm), old(pmm).used, d)
    {
      freeFrames := U64(freeFrames + d);
      usedFrames := U64(usedFrames - d);
      pmm := Move(pmm, pmm.used, d);
    }

    /** A clear frame becomes used. */
    method TakeFrame(f: nat)
      requires Valid() && f < frameCount && !pmm.used[f]
      modifies this`pmm, this`freeFrames, this`usedFrames, bitmap
      ensures Valid() && pmm == Move(old(pmm), old(pmm).used[f := true], -1)
    {
      ClearUpdate(pmm.used, f, true);
      SetFrame(f);
      Count(-1);
    }

    /** A used frame becomes clear. */
    method GiveFrame(f: nat)
      requires Valid() && f < frameCount && pmm.used[f]
      modifies this`pmm, this`freeFrames, this`usedFrames, bitmap
      ensures Valid() && pmm == Move(old(pmm), old(pmm).used[f := false], 1)
    {
      ClearUpdate(pmm.used, f, false);
      ClearFrame(f);
      Count(1);
    }

    /** `bits` is what the bitmap storage held before. */
    constructor (regions: seq<Region>, storage: array<bv8>, maxPhys: nat, ghost bits: seq<bool>)
      requires 1 <= storage.Length && |bits| == maxPhys / PAGE && maxPhys < TWO64 && Shows(storage[..], bits)
      modifies storage
      ensures Valid() && bitmap == storage && frameCount == maxPhys / PAGE
      ensures Booted(bits, regions, pmm.used) && gap == BootGap(bits, regions)
    {
      bitmap := storage;
      frameCount := maxPhys / PAGE;
      freeFrames := 0;
      usedFrames := maxPhys / PAGE;
      new;
      Blank(bits);
      OpenRegions(regions);
      SealZero(bits, regions);
    }

    /** Frame 0 is set and counted out, whether or not it was counted in. */
    method SealZero(ghost bits: seq<bool>, ghost regions: seq<Region>)
      requires Valid() && |bits| == frameCount
      requires gap == Clear(Blanked(bits)) && Opened(Blanked(bits), regions, pmm.used)
      modifies this, bitmap
      ensures Valid() && Booted(bits, regions, pmm.used) && gap == BootGap(bits, regions)
    {
      if 0 < frameCount { ClearUpdate(pmm.used, 0, true); }
      SetFrame(0);
      Count(-1);
      gap := BootGap(bits, regions);
    }

    /** The 0xFF fill of the whole bytes. */
    method Blank(ghost bits: seq<bool>)
      requires 1 <= bitmap.Length && |bits| == frameCount && frameCount * PAGE < TWO64 && Shows(bitmap[..], bits)
      requires freeFrames == 0 && usedFrames == frameCount
      modifies this`pmm, this`gap, bitmap
      ensures Valid() && pmm.used == Blanked(bits) && gap == Clear(Blanked(bits))
    {
      for i := 0 to frameCount / 8
        invariant forall j :: 0 <= j < bitmap.Length ==> bitmap[j] == if j < i then 0xFF else old(bitmap[j])
      {
        bitmap[i] := 0xFF;
      }
      pmm := Pmm(Blanked(bits), 0, frameCount);
      gap := Clear(Blanked(bits));
      forall f | 0 <= f < frameCount ensures pmm.used[f] == BitAt(bitmap[..], f) {
        AllBits(f % 8);
        assert BitAt(old(bitmap[..]), f) == bits[f];
        assert bitmap[..][f / 8] == if f / 8 < frameCount / 8 then 0xFF else old(bitmap[..])[f / 8];
      }
    }

    method OpenRegions(regions: seq<Region>)
      requires Valid()
      modifies this`pmm, this`freeFrames, this`usedFrames, bitmap
      ensures Valid() && Opened(old(pmm).used, regions, pmm.used)
    {
      for r := 0 to |regions|
        invariant Valid() && Opened(old(pmm).used, regions[..r], pmm.used)
      {
        if regions[r].usable {
          OpenRegion(regions[r]);
        }
        assert regions[..r + 1] == regions[..r] + [regions[r]];
        OpenedNext(regions[..r], regions[r]);
      }
      assert regions[..|regions|] == regions;
    }

    method OpenRegion(r: Region)
      requires Valid() && r.usable
      modifies this`pmm, this`freeFrames, this`usedFrames, bitmap
      ensures Valid() && |pmm.used| == |old(pmm).used|
      ensures forall f :: 0 <= f < frameCount ==> pmm.used[f] == (old(pmm).used[f] && !InRegion(r, f))
    {
      var start := r.base / PAGE;
      var count := r.length / PAGE;
      var i := 0;
      while i < count
        invariant Valid() && 0 <= i <= count
        invariant forall f :: 0 <= f < frameCount ==> pmm.used[f] == (old(pmm).used[f] && !(start <= f < start + i))
      {
        var frame := start + i;
        if frame >= frameCount { break; }
        var busy := TestFrame(frame);
        if busy {
          GiveFrame(frame);
        }
        i := i + 1;
      }
    }

    method Alloc() returns (phys: nat)
      requires Valid()
      modifies this`pmm, this`freeFrames, this`usedFrames, bitmap
      ensures Valid() && AllocFrame(old(pmm)) == Outcome(pmm, phys)
      ensures phys == INVALID <==> forall f :: 0 <= f < frameCount ==> old(pmm).used[f]
      ensures phys != INVALID ==> phys % PAGE == 0 && OneFrame(old(pmm), pmm, phys / PAGE, true)
    {
      AllocTakes(pmm);
      for i := 0 to frameCount
        invariant Valid() && pmm == old(pmm)
        invariant forall f :: 0 <= f < i ==> pmm.used[f]
      {
        var busy := TestFrame(i);
        if !busy {
          TakeFrame(i);
          assert First(old(pmm).used, false) == i;
          return i * PAGE;
        }
      }
      return INVALID;
    }

    method Free(phys: nat) returns (ok: bool)
      requires Valid()
      modifies this`pmm, this`freeFrames, this`usedFrames, bitmap
      ensures Valid() && FreeFrame(old(pmm), phys) == Outcome(pmm, if ok then 1 else 0)
      ensures ok <==> phys % PAGE == 0 && phys / PAGE < frameCount && old(pmm).used[phys / PAGE]
      ensures if ok then OneFrame(old(pmm), pmm, phys / PAGE, false) else pmm == old(pmm)
    {
      FreeGives(pmm, phys);
      if phys % PAGE != 0 { return false; }
      var frame := phys / PAGE;
      if frame >= frameCount { return false; }
      var busy := TestFrame(frame);
      if !busy { return false; }
      GiveFrame(frame);
      return true;
    }

    method Reserve(base: nat, length: nat) returns (ok: bool)
      requires Valid()
      modifies this`pmm, this`freeFrames, this`usedFrames, bitmap
      ensures Valid() && ok && ReserveRange(old(pmm), base, length) == Outcome(pmm, 1)
      ensures forall f :: 0 <= f < frameCount ==>
                pmm.used[f] == (old(pmm).used[f] || Down(base) <= f * PAGE < Down(base) + Down(length))
    {
      ReserveSets(pmm, base, length);
      TakeRange(base / PAGE, length / PAGE);
      FilledIs(old(pmm).used, pmm.used, base / PAGE, base / PAGE + length / PAGE);
      BooksMove(old(pmm), pmm, gap, frameCount + gap);
      return true;
    }

    method TakeRange(start: nat, count: nat)
      requires Valid()
      modifies this`pmm, this`freeFrames, this`usedFrames, bitmap
      ensures Valid()
      ensures forall f :: 0 <= f < frameCount ==> pmm.used[f] == (old(pmm).used[f] || start <= f < start + count)
    {
      var i := 0;
      while i < count
        invariant Valid() && 0 <= i <= count
        invariant forall f :: 0 <= f < frameCount ==> pmm.used[f] == (old(pmm).used[f] || start <= f < start + i)
      {
        var frame := start + i;
        if frame >= frameCount { break; }
        var busy := TestFrame(frame);
        if !busy {
          TakeFrame(frame);
        }
        i := i + 1;
      }
    }

    /** One call. */
    method Perform(op: Op) returns (r: int)
      requires Valid()
      modifies this`pmm, this`freeFrames, this`usedFrames, bitmap
      ensures Valid() && Step(old(pmm), op) == Outcome(pmm, r)
    {
      var ok := true;
      match op
      case Alloc => r := Alloc();
      case Free(phys) => ok := Free(phys); r := if ok then 1 else 0;
      case Reserve(base, length) => ok := Reserve(base, length); r := 1;
    }

    /** Any sequence of calls: the bitmap ends as the flags of the run and every call returns what the run returns; if
        only frames handed out are freed, no frame is handed out twice without a free in between, and after boot only
        usable frames are. */
    method Execute(ops: seq<Op>, ghost bits: seq<bool>, ghost regions: seq<Region>) returns (returned: seq<int>)
      requires Valid()
      modifies this`pmm, this`freeFrames, this`usedFrames, bitmap
      ensures Valid() && pmm == Run(old(pmm), ops) && returned == Returns(old(pmm), ops)
      ensures LegalRun(Sys(old(pmm), {}, {}), ops) ==> OneOwner(ops, returned)
      ensures LegalRun(Sys(old(pmm), {}, {}), ops) && Booted(bits, regions, old(pmm).used) ==>
                OnlyUsable(bits, regions, ops, returned)
      ensures LegalRun(Sys(old(pmm), {}, {}), ops) ==> SysInv(RunSys(Sys(old(pmm), {}, {}), ops), old(pmm).used)
    {
      returned := [];
      for i := 0 to |ops|
        invariant Valid() && pmm == Run(old(pmm), ops[..i]) && returned == Returns(old(pmm), ops[..i])
      {
        var r := Perform(ops[i]);
        assert ops[..i + 1][..i] == ops[..i];
        returned := returned + [r];
      }
      assert ops[..|ops|] == ops;
      if LegalRun(Sys(old(pmm), {}, {}), ops) {
        RunOneOwner(old(pmm), ops);
        RunKeeps(old(pmm), ops);
        if Booted(bits, regions, old(pmm).used) { RunOnlyUsable(bits, regions, old(pmm), ops); }
      }
    }

    method IsFree(phys: nat) returns (b: bool)
      requires Valid()
      ensures b == (phys / PAGE < |pmm.used| && !pmm.used[phys / PAGE])
    {
      var frame := phys / PAGE;
      if frame >= frameCount { return false; }
      var busy := TestFrame(frame);
      return !busy;
    }
  }

  /** flags with the frames of the usable regions cleared. */
  ghost predicate Opened(flags: seq<bool>, regions: seq<Region>, used: seq<bool>) {
    |used| == |flags| && forall f :: 0 <= f < |used| ==> used[f] == (flags[f] && !Covered(regions, f))
  }

  lemma OpenedNext(regions: seq<Region>, r: Region)
    ensures forall f :: Covered(regions + [r], f) <==> Covered(regions, f) || InRegion(r, f)
  {
    forall f ensures Covered(regions + [r], f) <==> Covered(regions, f) || InRegion(r, f) {
      var all := regions + [r];
      if Covered(regions, f) {
        var i :| 0 <= i < |regions| && InRegion(regions[i], f);
        assert InRegion(all[i], f);
      }
      if InRegion(r, f) { assert InRegion(all[|regions|], f); }
      if Covered(all, f) {
        var i :| 0 <= i < |all| && InRegion(all[i], f);
        assert i < |regions| ==> InRegion(regions[i], f);
      }
    }
  }
}
