/** m11_elf_loader.c: the checks on a program image before it is loaded. */
module ElfPlan {
  import opened Words

  const EHDR: nat := 24
  const PHDR: nat := 44
  const MAGIC: nat := 0x464c457f
  const MACHINE: nat := 62
  const PT_LOAD: nat := 1
  const USER_BASE: nat := 0x400000

  datatype Status = Ok | BadMagic | BadMachine | BadEntry | BadBounds | BadAlign | BadRange

  datatype Plan = Plan(entry: nat, segments: nat)

  // ---------------------------------------------------------------- fields

  /** Little-endian unsigned fields. */
  function Le2(image: seq<byte>, at: nat): (r: nat)
    requires at + 2 <= |image|
    ensures r < 0x1_0000
  {
    image[at] as int + 0x100 * (image[at + 1] as int)
  }

  function Le4(image: seq<byte>, at: nat): (r: nat)
    requires at + 4 <= |image|
    ensures r < 0x1_0000_0000
  {
    Le2(image, at) + 0x1_0000 * Le2(image, at + 2)
  }

  function Le8(image: seq<byte>, at: nat): (r: nat)
    requires at + 8 <= |image|
    ensures r < TWO64
  {
    Le4(image, at) + 0x1_0000_0000 * Le4(image, at + 4)
  }

  /** The packed 24-byte header. */
  datatype Header = Header(magic: nat, machine: nat, entry: nat, phoff: nat, phnum: nat)

  function HeaderOf(image: seq<byte>): Header
    requires EHDR <= |image|
  {
    Header(Le4(image, 0), Le2(image, 4), Le8(image, 6), Le8(image, 14), Le2(image, 22))
  }

  /** One packed 44-byte program header. */
  datatype Segment = Segment(kind: nat, offset: nat, vaddr: nat, filesz: nat, memsz: nat, align: nat)

  /** Every field is a 64-bit word. */
  predicate Words64(s: Segment) {
    s.offset < TWO64 && s.vaddr < TWO64 && s.filesz < TWO64 && s.memsz < TWO64 && s.align < TWO64
  }

  function SegmentAt(image: seq<byte>, at: nat): (s: Segment)
    requires at + PHDR <= |image|
    ensures Words64(s)
  {
    Segment(Le4(image, at), Le8(image, at + 4), Le8(image, at + 12), Le8(image, at + 20), Le8(image, at + 28),
            Le8(image, at + 36))
  }

  // ---------------------------------------------------------------- the alignment trick

  /** Bitwise and of two unsigned numbers. */
  function And(a: nat, b: nat): nat {
    if a == 0 || b == 0 then 0 else (if a % 2 == 1 && b % 2 == 1 then 1 else 0) + 2 * And(a / 2, b / 2)
  }

  function Pow2(k: nat): (r: nat)
    ensures r >= 1
  {
    if k == 0 then 1 else 2 * Pow2(k - 1)
  }

  ghost predicate IsPow2(a: nat) {
    exists k: nat :: a == Pow2(k)
  }

  lemma {:induction false} AndSelf(a: nat)
    ensures And(a, a) == a
  {
    if a == 0 {
    } else {
      AndSelf(a / 2);
    }
  }

  lemma HalfPow2(a: nat)
    requires a > 0
    ensures IsPow2(2 * a) <==> IsPow2(a)
  {
    if IsPow2(a) {
      var k: nat :| a == Pow2(k);
      assert 2 * a == Pow2(k + 1);
    }
    if IsPow2(2 * a) {
      var k: nat :| 2 * a == Pow2(k);
      assert a == Pow2(k - 1);
    }
  }

  lemma OddPow2(a: nat)
    requires a % 2 == 1
    ensures IsPow2(a) <==> a == 1
  {
    assert Pow2(0) == 1;
    if IsPow2(a) {
      var k: nat :| a == Pow2(k);
      assert k > 0 ==> a == 2 * Pow2(k - 1);
    }
  }

  /** a & (a - 1) is zero exactly for the powers of two. */
  lemma {:induction false} AlignTrick(a: nat)
    requires a > 0
    ensures And(a, a - 1) == 0 <==> IsPow2(a)
  {
    if a % 2 == 1 {
      OddPow2(a);
      if a > 1 {
        assert (a - 1) / 2 == a / 2;
        AndSelf(a / 2);
      }
    } else {
      AlignTrick(a / 2);
      HalfPow2(a / 2);
      assert (a - 1) / 2 == a / 2 - 1 && a % 2 == 0;
    }
  }

  // ---------------------------------------------------------------- what is accepted

  /** The status of the header checks, in the order in which they are made. */
  function HeaderStatus(image: seq<byte>): Status {
    if |image| < EHDR then BadMagic
    else
      var h := HeaderOf(image);
      if h.magic != MAGIC then BadMagic
      else if h.machine != MACHINE then BadMachine
      else if h.entry < USER_BASE then BadEntry
      else if U64(h.phoff + h.phnum * PHDR) > |image| then BadBounds
      else Ok
  }

  /** The program header table does not run round the end of the address space. */
  predicate TableFits(image: seq<byte>) {
    EHDR <= |image| ==> HeaderOf(image).phoff + HeaderOf(image).phnum * PHDR < TWO64
  }

  /** The status of the segment checks, in the order in which they are made. */
  function SegmentStatus(s: Segment, size: nat): Status {
    if s.kind != PT_LOAD then Ok
    else if s.memsz < s.filesz then BadBounds
    else if U64(s.offset + s.filesz) > size then BadBounds
    else if s.align == 0 then BadAlign
    else if And(s.align, s.align - 1) != 0 then BadAlign
    else if s.vaddr < USER_BASE then BadRange
    else Ok
  }

  /** The rules for a loadable segment. */
  ghost predicate Loadable(s: Segment, size: nat) {
    InBounds(s, size) && IsPow2(s.align) && USER_BASE <= s.vaddr
  }

  ghost predicate InBounds(s: Segment, size: nat) {
    s.filesz <= s.memsz && s.offset + s.filesz <= size
  }

  /** The file range runs round the end of the 64-bit numbers and back into the image. */
  predicate WrapsIn(s: Segment, size: nat) {
    TWO64 <= s.offset + s.filesz <= TWO64 + size
  }

  /** The bounds check said in true sums. */
  predicate BoundsPass(s: Segment, size: nat) {
    s.filesz <= s.memsz && (s.offset + s.filesz <= size || WrapsIn(s, size))
  }

  /** What each verdict on a loadable segment says: bounds before alignment before address. */
  lemma VerdictIff(s: Segment, size: nat)
    requires s.kind == PT_LOAD && Words64(s) && size < TWO64
    ensures SegmentStatus(s, size) == BadBounds <==> !BoundsPass(s, size)
    ensures SegmentStatus(s, size) == BadAlign <==> BoundsPass(s, size) && !IsPow2(s.align)
    ensures SegmentStatus(s, size) == BadRange <==> BoundsPass(s, size) && IsPow2(s.align) && s.vaddr < USER_BASE
    ensures SegmentStatus(s, size) == Ok <==> BoundsPass(s, size) && IsPow2(s.align) && USER_BASE <= s.vaddr
  {
    if s.align > 0 { AlignTrick(s.align); }
    assert !IsPow2(0);
    WrappedCheckIff(s.offset, s.filesz, size);
  }

  /** The verdict on a loadable segment is right exactly unless its file range wraps into the image and nothing else is
      wrong with it. */
  lemma VerdictExactIff(s: Segment, size: nat)
    requires s.kind == PT_LOAD && Words64(s) && size < TWO64
    ensures (Passes(s, size) <==> Loadable(s, size)) <==>
            !(s.filesz <= s.memsz && WrapsIn(s, size) && IsPow2(s.align) && USER_BASE <= s.vaddr)
  {
    VerdictIff(s, size);
  }

  /** Such a segment, for an image of any size. */
  lemma WrappedSegmentPasses(size: nat)
    requires size < TWO64 - 1
    ensures var s := Segment(PT_LOAD, TWO64 - 1, USER_BASE, 1, 1, 1);
            Passes(s, size) && !Loadable(s, size)
  {
    assert And(1, 0) == 0;
    assert U64(TWO64) == 0;
  }

  /** The table lies inside the image. */
  predicate Readable(image: seq<byte>) {
    EHDR <= |image| && HeaderOf(image).phoff + HeaderOf(image).phnum * PHDR <= |image|
  }

  /** n program headers from position at on. */
  function Table(image: seq<byte>, at: nat, n: nat): (r: seq<Segment>)
    requires at + n * PHDR <= |image|
    ensures |r| == n
    ensures forall i :: 0 <= i < n ==> at + i * PHDR + PHDR <= |image| && r[i] == SegmentAt(image, at + i * PHDR)
  {
    if n == 0 then [] else Table(image, at, n - 1) + [SegmentAt(image, at + (n - 1) * PHDR)]
  }

  function Segments(image: seq<byte>): seq<Segment>
    requires Readable(image)
  {
    Table(image, HeaderOf(image).phoff, HeaderOf(image).phnum)
  }

  predicate Passes(s: Segment, size: nat) {
    SegmentStatus(s, size) == Ok
  }

  /** The first program header that fails its checks, or |ss|. */
  function FirstBad(ss: seq<Segment>, size: nat, from: nat := 0): (r: nat)
    requires from <= |ss|
    ensures from <= r <= |ss|
    ensures forall i :: from <= i < r ==> Passes(ss[i], size)
    ensures r < |ss| ==> !Passes(ss[r], size)
    decreases |ss| - from
  {
    if from == |ss| || !Passes(ss[from], size) then from else FirstBad(ss, size, from + 1)
  }

  /** How many of the first n program headers are loadable. */
  function Loads(ss: seq<Segment>, n: nat): nat
    requires n <= |ss|
  {
    if n == 0 then 0 else Loads(ss, n - 1) + if ss[n - 1].kind == PT_LOAD then 1 else 0
  }

  /** m11_elf64_plan_load. On a segment failure the plan is already partly written. */
  method PlanLoad(image: seq<byte>, before: Plan) returns (status: Status, plan: Plan)
    requires |image| < TWO64 && TableFits(image)
    ensures HeaderStatus(image) != Ok ==> status == HeaderStatus(image) && plan == before
    ensures HeaderStatus(image) == Ok ==>
              && Readable(image)
              && var ss := Segments(image);
                 var bad := FirstBad(ss, |image|);
                 && plan == Plan(HeaderOf(image).entry, Loads(ss, bad))
                 && status == if bad < |ss| then SegmentStatus(ss[bad], |image|) else Ok
    ensures status == Ok <==> Accepted(image)
  {
    plan := before;
    if |image| < EHDR { return BadMagic, plan; }
    var h := HeaderOf(image);
    if h.magic != MAGIC { return BadMagic, plan; }
    if h.machine != MACHINE { return BadMachine, plan; }
    if h.entry < USER_BASE { return BadEntry, plan; }
    if U64(h.phoff + h.phnum * PHDR) > |image| { return BadBounds, plan; }
    var count;
    status, count := Scan(Segments(image), |image|);
    plan := Plan(h.entry, count);
  }

  /** The loop over the program headers; it stops at the first that fails. */
  method Scan(ss: seq<Segment>, size: nat) returns (status: Status, count: nat)
    ensures var bad := FirstBad(ss, size);
            && count == Loads(ss, bad)
            && status == if bad < |ss| then SegmentStatus(ss[bad], size) else Ok
  {
    count := 0;
    for i := 0 to |ss|
      invariant FirstBad(ss, size) == FirstBad(ss, size, i)
      invariant count == Loads(ss, i)
    {
      status := SegmentStatus(ss[i], size);
      if status != Ok { return; }
      if ss[i].kind == PT_LOAD {
        count := count + 1;
      }
    }
    return Ok, count;
  }

  /** No check fails. */
  predicate Accepted(image: seq<byte>) {
    HeaderStatus(image) == Ok && Readable(image) && FirstBad(Segments(image), |image|) == |Segments(image)|
  }

  predicate HeaderRight(image: seq<byte>) {
    && Readable(image)
    && HeaderOf(image).magic == MAGIC && HeaderOf(image).machine == MACHINE && HeaderOf(image).entry >= USER_BASE
  }

  /** Every loadable segment follows the rules. */
  ghost predicate AllLoadable(image: seq<byte>)
    requires Readable(image)
  {
    forall s :: s in Segments(image) && s.kind == PT_LOAD ==> Loadable(s, |image|)
  }

  /** The image as a whole: accepted exactly when the header is right, the table lies in the image, and every loadable
      segment has a good alignment and address and passes the bounds check as it is made. */
  lemma AcceptedIff(image: seq<byte>)
    requires |image| < TWO64 && TableFits(image)
    ensures Accepted(image) <==>
            && HeaderRight(image)
            && forall s :: s in Segments(image) && s.kind == PT_LOAD ==>
                 BoundsPass(s, |image|) && IsPow2(s.align) && USER_BASE <= s.vaddr
  {
    if Readable(image) {
      var ss := Segments(image);
      forall s | s in ss && s.kind == PT_LOAD
        ensures Passes(s, |image|) <==> BoundsPass(s, |image|) && IsPow2(s.align) && USER_BASE <= s.vaddr
      {
        VerdictIff(s, |image|);
      }
      var bad := FirstBad(ss, |image|);
      assert bad < |ss| ==> ss[bad] in ss;
    }
  }

  /** Acceptance of an image means that its segments follow the rules, exactly unless it is accepted with a loadable
      segment whose file range wraps round. */
  lemma AcceptedExactIff(image: seq<byte>)
    requires |image| < TWO64 && TableFits(image)
    ensures (Accepted(image) <==> HeaderRight(image) && AllLoadable(image)) <==>
            !(&& HeaderRight(image)
              && (forall s :: s in Segments(image) && s.kind == PT_LOAD ==>
                    BoundsPass(s, |image|) && IsPow2(s.align) && USER_BASE <= s.vaddr)
              && exists s :: s in Segments(image) && s.kind == PT_LOAD && WrapsIn(s, |image|))
  {
    AcceptedIff(image);
    if HeaderRight(image) {
      forall s | s in Segments(image) && s.kind == PT_LOAD
        ensures Loadable(s, |image|) <==>
                BoundsPass(s, |image|) && IsPow2(s.align) && USER_BASE <= s.vaddr && !WrapsIn(s, |image|)
      {
      }
    }
  }

  // ---------------------------------------------------------------- codes and counts

  /** What each answer to the header says: the checks are made in this order. */
  lemma HeaderVerdictIff(image: seq<byte>)
    requires |image| < TWO64
    ensures HeaderStatus(image) in {Ok, BadMagic, BadMachine, BadEntry, BadBounds}
    ensures HeaderStatus(image) == BadMagic <==> !(EHDR <= |image| && HeaderOf(image).magic == 0x464c457f)
    ensures EHDR <= |image| && HeaderOf(image).magic == 0x464c457f ==>
              var h := HeaderOf(image);
              var end := h.phoff + h.phnum * 44;
              && (HeaderStatus(image) == BadMachine <==> h.machine != 62)
              && (HeaderStatus(image) == BadEntry <==> h.machine == 62 && h.entry < 0x400000)
              && (HeaderStatus(image) == BadBounds <==>
                  h.machine == 62 && 0x400000 <= h.entry && !(end <= |image| || TWO64 <= end <= TWO64 + |image|))
  {
    if EHDR <= |image| {
      WrappedCheckIff(HeaderOf(image).phoff, HeaderOf(image).phnum * PHDR, |image|);
    }
  }

  /** Program headers of other kinds are passed over, whatever they say. */
  lemma OtherKinds(s: Segment, size: nat)
    requires s.kind != 1
    ensures SegmentStatus(s, size) == Ok
  {
  }

  /** The segment count of the plan is the number of loadable program headers before the first that fails. */
  lemma {:induction false} LoadsCount(ss: seq<Segment>, n: nat)
    requires n <= |ss|
    ensures Loads(ss, n) == |set i | 0 <= i < n && ss[i].kind == 1|
  {
    if n == 0 {
    } else {
      LoadsCount(ss, n - 1);
      var before, all := set i | 0 <= i < n - 1 && ss[i].kind == 1, set i | 0 <= i < n && ss[i].kind == 1;
      assert all == if ss[n - 1].kind == 1 then before + {n - 1} else before;
    }
  }

  // ---------------------------------------------------------------- an image that is wrongly accepted

  /** An image of 68 bytes: the header, and one loadable segment of one byte at file offset 2^64 - 1. */
  const WRAPPED: seq<byte> :=
    [0x7f, 0x45, 0x4c, 0x46, 62, 0] + [0, 0, 0x40, 0, 0, 0, 0, 0] + [24, 0, 0, 0, 0, 0, 0, 0] + [1, 0] +
    [1, 0, 0, 0] + [255, 255, 255, 255, 255, 255, 255, 255] + [0, 0, 0x40, 0, 0, 0, 0, 0] +
    [1, 0, 0, 0, 0, 0, 0, 0] + [1, 0, 0, 0, 0, 0, 0, 0] + [1, 0, 0, 0, 0, 0, 0, 0]

  lemma WrappedFields()
    ensures |WRAPPED| == EHDR + PHDR
    ensures HeaderOf(WRAPPED) == Header(MAGIC, MACHINE, USER_BASE, EHDR, 1)
    ensures SegmentAt(WRAPPED, EHDR) == Segment(PT_LOAD, TWO64 - 1, USER_BASE, 1, 1, 1)
  {
  }

  /** The validator accepts that image, although its segment starts far behind the end of the file. */
  lemma WrappedImageAccepted()
    ensures |WRAPPED| == 68 && TableFits(WRAPPED) && Accepted(WRAPPED)
    ensures !AllLoadable(WRAPPED)
  {
    WrappedFields();
    var s := SegmentAt(WRAPPED, EHDR);
    var ss := Segments(WRAPPED);
    assert |ss| == 1 && ss[0] == s;
    WrappedSegmentPasses(68);
    assert s in ss;
  }
}
