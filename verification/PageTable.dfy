/** vmm.c: 256 mapping slots, searched linearly, with holes left by unmapping. */
module PageTable {
  import opened Words
  import opened FirstMatch

  const SLOTS: nat := 256
  const PAGE: nat := 0x1000
  const TWO47: nat := 0x8000_0000_0000
  const TWO48: nat := 0x1_0000_0000_0000

  datatype Target = Target(phys: nat, flags: nat)
  datatype Slot = Empty | Used(virt: nat, to: Target)

  /** vmm_is_canonical: the upper 16 bits are all 0 or all 1. */
  predicate IsCanonical(virt: nat) {
    virt / TWO48 == 0 || virt / TWO48 == 0xFFFF
  }

  /** Bits 63 to 47 all alike, as the architecture asks. */
  predicate SignExtended(virt: nat) {
    virt < TWO47 || TWO64 - TWO47 <= virt
  }

  /** The check lets every canonical address through, and is exact except on the two ranges where bit 47 differs. */
  lemma CanonicalExactIff(virt: nat)
    requires virt < TWO64
    ensures SignExtended(virt) ==> IsCanonical(virt)
    ensures (IsCanonical(virt) <==> SignExtended(virt)) <==>
            !(TWO47 <= virt < TWO48 || TWO64 - TWO48 <= virt < TWO64 - TWO47)
  {
    var top := virt / TWO48;
    assert top * TWO48 <= virt < (top + 1) * TWO48;
  }

  predicate Acceptable(virt: nat, phys: nat) {
    IsCanonical(virt) && virt % PAGE == 0 && phys % PAGE == 0
  }

  /** flags | VMM_PRESENT. */
  function Present(flags: nat): (r: nat)
    ensures r % 2 == 1 && r / 2 == flags / 2
  {
    if flags % 2 == 1 then flags else flags + 1
  }

  // ---------------------------------------------------------------- slots

  predicate Hits(s: Slot, virt: nat) {
    s.Used? && s.virt == virt
  }

  /** The slot at which a search for virt stops, or |ss|. */
  function Hit(ss: seq<Slot>, virt: nat, from: nat := 0): (r: nat)
    requires from <= |ss|
    ensures from <= r <= |ss|
    ensures r < |ss| ==> Hits(ss[r], virt)
    ensures forall i :: from <= i < r ==> !Hits(ss[i], virt)
    decreases |ss| - from
  {
    if from == |ss| || Hits(ss[from], virt) then from else Hit(ss, virt, from + 1)
  }

  datatype Op = Map(virt: nat, phys: nat, flags: nat) | Unmap(virt: nat)

  function MapSlots(ss: seq<Slot>, virt: nat, phys: nat, flags: nat): (seq<Slot>, bool) {
    var i := First(ss, Empty);
    if !Acceptable(virt, phys) || i == |ss| then (ss, false)
    else (ss[i := Used(virt, Target(phys, Present(flags)))], true)
  }

  function UnmapSlots(ss: seq<Slot>, virt: nat): (seq<Slot>, bool) {
    var i := Hit(ss, virt);
    if i == |ss| then (ss, false) else (ss[i := Empty], true)
  }

  function StepSlots(ss: seq<Slot>, op: Op): (seq<Slot>, bool) {
    match op
    case Map(virt, phys, flags) => MapSlots(ss, virt, phys, flags)
    case Unmap(virt) => UnmapSlots(ss, virt)
  }

  // ---------------------------------------------------------------- pages

  /** The mappings as a finite map from page to target. */
  ghost function Pages(ss: seq<Slot>): map<nat, Target> {
    if ss == [] then map[]
    else
      var m, s := Pages(ss[..|ss| - 1]), ss[|ss| - 1];
      if s.Used? then m[s.virt := s.to] else m
  }

  /** No page has two slots. */
  ghost predicate Distinct(ss: seq<Slot>) {
    forall i, j :: 0 <= i < j < |ss| && ss[i].Used? && ss[j].Used? ==> ss[i].virt != ss[j].virt
  }

  function StepPages(m: map<nat, Target>, op: Op): (map<nat, Target>, bool) {
    match op
    case Map(virt, phys, flags) =>
      if !Acceptable(virt, phys) || |m| >= SLOTS then (m, false)
      else (m[virt := Target(phys, Present(flags))], true)
    case Unmap(virt) => (m - {virt}, virt in m)
  }

  /** The caller maps only pages that are not mapped. */
  predicate Careful(m: map<nat, Target>, op: Op) {
    op.Map? ==> op.virt !in m
  }

  lemma {:induction false} PagesAt(ss: seq<Slot>, virt: nat)
    requires Distinct(ss)
    ensures virt in Pages(ss) <==> Hit(ss, virt) < |ss|
    ensures virt in Pages(ss) ==> Pages(ss)[virt] == ss[Hit(ss, virt)].to
  {
    if ss == [] {
    } else {
      var init := ss[..|ss| - 1];
      PagesAt(init, virt);
      assert forall i :: 0 <= i < |init| ==> init[i] == ss[i];
      if Hit(init, virt) < |init| { assert Hit(ss, virt) == Hit(init, virt); }
    }
  }

  /** Emptying a slot removes its page. */
  lemma {:induction false} PagesEmptied(ss: seq<Slot>, i: nat)
    requires Distinct(ss) && i < |ss| && ss[i].Used?
    ensures Distinct(ss[i := Empty]) && Pages(ss[i := Empty]) == Pages(ss) - {ss[i].virt}
  {
    var init, ss' := ss[..|ss| - 1], ss[i := Empty];
    if i < |init| {
      PagesEmptied(init, i);
      assert ss'[..|ss| - 1] == init[i := Empty];
    } else {
      assert ss'[..|ss| - 1] == init;
      PagesAt(init, ss[i].virt);
    }
  }

  /** Filling an empty slot adds a page, when the page is new. */
  lemma {:induction false} PagesFilled(ss: seq<Slot>, i: nat, virt: nat, to: Target)
    requires Distinct(ss) && i < |ss| && ss[i] == Empty && Hit(ss, virt) == |ss|
    ensures Distinct(ss[i := Used(virt, to)]) && Pages(ss[i := Used(virt, to)]) == Pages(ss)[virt := to]
  {
    var init, ss' := ss[..|ss| - 1], ss[i := Used(virt, to)];
    if i < |init| {
      assert forall j :: 0 <= j < |ss| ==> !Hits(ss[j], virt);
      assert Hit(init, virt) == |init|;
      PagesFilled(init, i, virt, to);
      assert ss'[..|ss| - 1] == init[i := Used(virt, to)];
      assert !Hits(ss[|ss| - 1], virt);
    } else {
      assert ss'[..|ss| - 1] == init;
    }
  }

  /** With one slot a page, an empty slot is left exactly when fewer pages than slots are mapped. */
  lemma {:induction false} PagesCount(ss: seq<Slot>)
    requires Distinct(ss)
    ensures |Pages(ss)| <= |ss|
    ensures |Pages(ss)| == |ss| <==> First(ss, Empty) == |ss|
  {
    if ss == [] {
    } else {
      var init, s := ss[..|ss| - 1], ss[|ss| - 1];
      PagesCount(init);
      assert forall i :: 0 <= i < |init| ==> init[i] == ss[i];
      if s.Used? {
        PagesAt(init, s.virt);
        assert s.virt !in Pages(init);
        assert Pages(ss).Keys == Pages(init).Keys + {s.virt};
      } else {
        assert ss[|ss| - 1] == Empty;
      }
    }
  }

  /** Every call on the slots answers and acts as on the map of pages. */
  lemma StepRefines(ss: seq<Slot>, op: Op)
    requires |ss| == SLOTS && Distinct(ss) && Careful(Pages(ss), op)
    ensures Distinct(StepSlots(ss, op).0)
    ensures (Pages(StepSlots(ss, op).0), StepSlots(ss, op).1) == StepPages(Pages(ss), op)
  {
    PagesAt(ss, op.virt);
    match op
    case Map(virt, phys, flags) =>
      PagesCount(ss);
      var i := First(ss, Empty);
      if Acceptable(virt, phys) && i < |ss| {
        PagesFilled(ss, i, virt, Target(phys, Present(flags)));
      }
    case Unmap(virt) =>
      var i := Hit(ss, virt);
      if i < |ss| { PagesEmptied(ss, i); } else { assert Pages(ss) - {virt} == Pages(ss); }
  }

  function RunSlots(ss: seq<Slot>, ops: seq<Op>): seq<Slot> {
    if ops == [] then ss else StepSlots(RunSlots(ss, ops[..|ops| - 1]), ops[|ops| - 1]).0
  }

  function RunPages(m: map<nat, Target>, ops: seq<Op>): map<nat, Target> {
    if ops == [] then m else StepPages(RunPages(m, ops[..|ops| - 1]), ops[|ops| - 1]).0
  }

  /** Whether each call of a run succeeds, on the slots and on the pages. */
  function AnswersSlots(ss: seq<Slot>, ops: seq<Op>): seq<bool> {
    if ops == [] then []
    else AnswersSlots(ss, ops[..|ops| - 1]) + [StepSlots(RunSlots(ss, ops[..|ops| - 1]), ops[|ops| - 1]).1]
  }

  function AnswersPages(m: map<nat, Target>, ops: seq<Op>): seq<bool> {
    if ops == [] then []
    else AnswersPages(m, ops[..|ops| - 1]) + [StepPages(RunPages(m, ops[..|ops| - 1]), ops[|ops| - 1]).1]
  }

  ghost predicate CarefulRun(m: map<nat, Target>, ops: seq<Op>) {
    ops != [] ==> CarefulRun(m, ops[..|ops| - 1]) && Careful(RunPages(m, ops[..|ops| - 1]), ops[|ops| - 1])
  }

  function AllEmpty(n: nat): (ss: seq<Slot>)
    ensures |ss| == n && forall i :: 0 <= i < n ==> ss[i] == Empty
  {
    if n == 0 then [] else AllEmpty(n - 1) + [Empty]
  }

  lemma {:induction false} NoPages(n: nat)
    ensures Pages(AllEmpty(n)) == map[]
  {
    if n == 0 {
    } else {
      assert AllEmpty(n)[..n - 1] == AllEmpty(n - 1);
      NoPages(n - 1);
    }
  }

  /** What a query of virt sees in the slots is what the map of pages says, and stored addresses are page-aligned. */
  ghost predicate Shown(ss: seq<Slot>, m: map<nat, Target>, virt: nat) {
    && (Hit(ss, virt) < |ss| <==> virt in m)
    && (virt in m ==>
          && Hit(ss, virt) < |ss| && ss[Hit(ss, virt)].to == m[virt]
          && virt % PAGE == 0 && m[virt].phys % PAGE == 0)
  }

  /** In every run that maps only unmapped pages, the slots with their holes are a finite map from page to target:
      every call succeeds as on the map, and every query finds what the map says. */
  lemma {:induction false} RunRefines(ops: seq<Op>, virt: nat)
    requires CarefulRun(map[], ops)
    ensures var ss, m := RunSlots(AllEmpty(SLOTS), ops), RunPages(map[], ops);
            |ss| == 256 && Distinct(ss) && Pages(ss) == m && Shown(ss, m, virt)
    ensures AnswersSlots(AllEmpty(SLOTS), ops) == AnswersPages(map[], ops)
  {
    NoPages(SLOTS);
    if ops == [] {
    } else {
      RunRefines(ops[..|ops| - 1], virt);
      StepRefines(RunSlots(AllEmpty(SLOTS), ops[..|ops| - 1]), ops[|ops| - 1]);
    }
    PagesAt(RunSlots(AllEmpty(SLOTS), ops), virt);
  }

  // ---------------------------------------------------------------- pages mapped twice

  /** Without that discipline: after a mapping that finds room, a query of the page returns the new target exactly when
      the page had no slot below the hole that was taken, or its first slot held that very target. */
  lemma MapVisibleIff(ss: seq<Slot>, virt: nat, phys: nat, flags: nat)
    requires Acceptable(virt, phys) && First(ss, Empty) < |ss|
    ensures var ss', t := MapSlots(ss, virt, phys, flags).0, Target(phys, Present(flags));
            && Hit(ss', virt) < |ss'|
            && (ss'[Hit(ss', virt)].to == t <==>
                First(ss, Empty) < Hit(ss, virt) || (Hit(ss, virt) < |ss| && ss[Hit(ss, virt)].to == t))
  {
    var i, ss' := First(ss, Empty), MapSlots(ss, virt, phys, flags).0;
    assert Hits(ss'[i], virt);
    assert forall j :: 0 <= j < |ss| && j != i ==> ss'[j] == ss[j];
  }

  /** A mapping succeeds exactly for whole pages and frames at addresses below 2^48 or in the top 2^48, when a slot is
      left; a refused one changes nothing. */
  lemma MapSucceedsIff(ss: seq<Slot>, virt: nat, phys: nat, flags: nat)
    requires virt < TWO64
    ensures MapSlots(ss, virt, phys, flags).1 <==>
            && (virt < 0x1_0000_0000_0000 || 0xffff_0000_0000_0000 <= virt)
            && virt % 4096 == 0 && phys % 4096 == 0 && exists i :: 0 <= i < |ss| && !ss[i].Used?
    ensures !MapSlots(ss, virt, phys, flags).1 ==> MapSlots(ss, virt, phys, flags).0 == ss
  {
    var top := virt / TWO48;
    assert top * TWO48 <= virt < (top + 1) * TWO48;
    assert forall i :: 0 <= i < |ss| && !ss[i].Used? ==> ss[i] == Empty;
  }

  /** An unmap succeeds exactly when some slot holds the page, and otherwise changes nothing. */
  lemma UnmapSucceedsIff(ss: seq<Slot>, virt: nat)
    ensures UnmapSlots(ss, virt).1 <==> exists i :: 0 <= i < |ss| && ss[i].Used? && ss[i].virt == virt
    ensures !UnmapSlots(ss, virt).1 ==> UnmapSlots(ss, virt).0 == ss
  {
    assert forall i :: 0 <= i < |ss| ==> Hits(ss[i], virt) == (ss[i].Used? && ss[i].virt == virt);
  }

  /** Mapping or unmapping one page changes what no other page is mapped to. */
  lemma OtherPages(ss: seq<Slot>, op: Op, virt: nat)
    requires virt != op.virt
    ensures var ss' := StepSlots(ss, op).0;
            && |ss'| == |ss| && Hit(ss', virt) == Hit(ss, virt)
            && (Hit(ss, virt) < |ss| ==> ss'[Hit(ss, virt)] == ss[Hit(ss, virt)])
  {
    var ss' := StepSlots(ss, op).0;
    assert forall i :: 0 <= i < |ss| ==> Hits(ss'[i], virt) == Hits(ss[i], virt);
    assert forall i :: 0 <= i < |ss| && Hits(ss[i], virt) ==> ss'[i] == ss[i];
  }

  /** After a successful unmap the page is gone exactly when it had no second slot. */
  lemma UnmapCompleteIff(ss: seq<Slot>, virt: nat)
    requires Hit(ss, virt) < |ss|
    ensures UnmapSlots(ss, virt).1
    ensures Hit(UnmapSlots(ss, virt).0, virt) == |ss| <==> forall j :: Hit(ss, virt) < j < |ss| ==> !Hits(ss[j], virt)
  {
    var i, ss' := Hit(ss, virt), UnmapSlots(ss, virt).0;
    assert forall j :: 0 <= j < |ss| && j != i ==> ss'[j] == ss[j];
    var r := Hit(ss', virt);
    assert r < |ss| ==> Hits(ss[r], virt) && r > i;
  }

  /** From an empty table: mapping a page twice leaves the first target in force, and unmapping it once brings the
      second to light instead of removing the page. */
  lemma MappedTwice(virt: nat, phys: nat, other: nat, flags: nat)
    requires Acceptable(virt, phys) && Acceptable(virt, other) && phys != other
    ensures var twice := RunSlots(AllEmpty(SLOTS), [Map(virt, phys, flags), Map(virt, other, flags)]);
            var once := RunSlots(AllEmpty(SLOTS), [Map(virt, phys, flags), Map(virt, other, flags), Unmap(virt)]);
            && |twice| == |once| == SLOTS
            && MapSlots(RunSlots(AllEmpty(SLOTS), [Map(virt, phys, flags)]), virt, other, flags).1
            && Hit(twice, virt) == 0 && twice[0].to == Target(phys, Present(flags))
            && UnmapSlots(twice, virt).1
            && Hit(once, virt) == 1 && once[1].to == Target(other, Present(flags))
  {
    var a, b, c := Map(virt, phys, flags), Map(virt, other, flags), Unmap(virt);
    assert [a, b, c][..2] == [a, b] && [a, b][..1] == [a] && [a][..0] == [];
    var s0 := AllEmpty(SLOTS);
    assert s0[0] == Empty;
    var s1 := s0[0 := Used(virt, Target(phys, Present(flags)))];
    assert RunSlots(s0, [a]) == s1;
    assert s1[0] != Empty && s1[1] == Empty;
    assert First(s1, Empty) == 1;
    var s2 := s1[1 := Used(virt, Target(other, Present(flags)))];
    assert RunSlots(s0, [a, b]) == s2;
    assert Hit(s2, virt) == 0;
    var s3 := s2[0 := Empty];
    assert RunSlots(s0, [a, b, c]) == s3;
    assert Hits(s3[1], virt) && !Hits(s3[0], virt);
    assert Hit(s3, virt) == 1;
  }

  // ---------------------------------------------------------------- the table

  class Table {
    const slots: array<Slot>

    ghost predicate Valid()
    {
      slots.Length == SLOTS
    }

    constructor ()
      ensures Valid() && fresh(slots) && slots[..] == AllEmpty(SLOTS)
    {
      slots := new Slot[SLOTS](_ => Empty);
      new;
      assert slots[..] == AllEmpty(SLOTS);
    }

    method MapPage(virt: nat, phys: nat, flags: nat) returns (ok: bool)
      requires Valid()
      modifies slots
      ensures (slots[..], ok) == MapSlots(old(slots[..]), virt, phys, flags)
    {
      if !IsCanonical(virt) { return false; }
      if virt % PAGE != 0 { return false; }
      if phys % PAGE != 0 { return false; }
      for i := 0 to SLOTS
        invariant slots[..] == old(slots[..])
        invariant forall j :: 0 <= j < i ==> slots[j] != Empty
      {
        if slots[i] == Empty {
          slots[i] := Used(virt, Target(phys, Present(flags)));
          assert First(old(slots[..]), Empty) == i;
          return true;
        }
      }
      assert First(old(slots[..]), Empty) == SLOTS;
      return false;
    }

    /** The found target, when the page has a slot. */
    method Query(virt: nat) returns (ok: bool, to: Target)
      requires Valid()
      ensures ok == (Hit(slots[..], virt) < SLOTS)
      ensures ok ==> to == slots[Hit(slots[..], virt)].to
    {
      to := Target(0, 0);
      for i := 0 to SLOTS
        invariant forall j :: 0 <= j < i ==> !Hits(slots[j], virt)
      {
        if slots[i] == Empty { continue; }
        if slots[i].virt != virt { continue; }
        assert Hit(slots[..], virt) == i;
        return true, slots[i].to;
      }
      return false, to;
    }

    method UnmapPage(virt: nat) returns (ok: bool)
      requires Valid()
      modifies slots
      ensures (slots[..], ok) == UnmapSlots(old(slots[..]), virt)
    {
      for i := 0 to SLOTS
        invariant slots[..] == old(slots[..])
        invariant forall j :: 0 <= j < i ==> !Hits(slots[j], virt)
      {
        if slots[i] == Empty { continue; }
        if slots[i].virt != virt { continue; }
        slots[i] := Empty;
        assert Hit(old(slots[..]), virt) == i;
        return true;
      }
      assert Hit(old(slots[..]), virt) == SLOTS;
      return false;
    }

    /** One call. */
    method Perform(op: Op) returns (ok: bool)
      requires Valid()
      modifies slots
      ensures (slots[..], ok) == StepSlots(old(slots[..]), op)
    {
      match op
      case Map(virt, phys, flags) => ok := MapPage(virt, phys, flags);
      case Unmap(virt) => ok := UnmapPage(virt);
    }

    /** Any sequence of calls, from a table with no page: if it maps only unmapped pages, the array answers as the map
        of pages and holds it. */
    method Execute(ops: seq<Op>) returns (answers: seq<bool>)
      requires Valid() && slots[..] == AllEmpty(SLOTS)
      modifies slots
      ensures slots[..] == RunSlots(AllEmpty(SLOTS), ops) && answers == AnswersSlots(AllEmpty(SLOTS), ops)
      ensures CarefulRun(map[], ops) ==> answers == AnswersPages(map[], ops)
      ensures CarefulRun(map[], ops) ==> forall virt: nat :: Shown(slots[..], RunPages(map[], ops), virt)
    {
      answers := [];
      for i := 0 to |ops|
        invariant slots[..] == RunSlots(AllEmpty(SLOTS), ops[..i]) && answers == AnswersSlots(AllEmpty(SLOTS), ops[..i])
      {
        var ok := Perform(ops[i]);
        assert ops[..i + 1][..i] == ops[..i];
        answers := answers + [ok];
      }
      assert ops[..|ops|] == ops;
      if CarefulRun(map[], ops) {
        RunRefines(ops, 0);
        forall virt: nat ensures Shown(slots[..], RunPages(map[], ops), virt) {
          RunRefines(ops, virt);
        }
      }
    }
  }
}
