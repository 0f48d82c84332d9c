/** Program images as they are written: packed headers, field by field, and what the validator reads back. */
module ElfImage {
  import opened Words
  import opened ElfPlan

  /** Byte i of x, counted from the least significant. */
  function Digit(x: nat, i: nat): byte {
    if i == 0 then x % 0x100 else Digit(x / 0x100, i - 1)
  }

  /** The low n bytes of x, least significant first. */
  function Bytes(x: nat, n: nat): (r: seq<byte>)
    ensures |r| == n && forall i :: 0 <= i < n ==> r[i] == Digit(x, i)
  {
    seq(n, i requires 0 <= i < n => Digit(x, i))
  }

  /** The packed headers, field after field. */
  function WriteHeader(h: Header): (r: seq<byte>)
    ensures |r| == EHDR
  {
    Bytes(h.magic, 4) + (Bytes(h.machine, 2) + (Bytes(h.entry, 8) + (Bytes(h.phoff, 8) + Bytes(h.phnum, 2))))
  }

  function WriteSegment(s: Segment): (r: seq<byte>)
    ensures |r| == PHDR
  {
    Bytes(s.kind, 4) + (Bytes(s.offset, 8) + (Bytes(s.vaddr, 8) + (Bytes(s.filesz, 8) +
    (Bytes(s.memsz, 8) + Bytes(s.align, 8)))))
  }

  function Pack(ss: seq<Segment>): (r: seq<Packed>)
    ensures |r| == |ss| && forall i :: 0 <= i < |ss| ==> r[i] == WriteSegment(ss[i])
  {
    seq(|ss|, i requires 0 <= i < |ss| => WriteSegment(ss[i]))
  }

  type Packed = bs: seq<byte> | |bs| == 44 witness seq(44, _ => 0)

  /** Program headers one behind the other. */
  function Join(parts: seq<Packed>): (r: seq<byte>)
    ensures |r| == |parts| * PHDR
  {
    if parts == [] then [] else Join(parts[..|parts| - 1]) + parts[|parts| - 1]
  }

  /** bs stands in image at position at. */
  ghost predicate Stands(image: seq<byte>, at: nat, bs: seq<byte>) {
    at + |bs| <= |image| && image[at..at + |bs|] == bs
  }

  lemma StandsParts(image: seq<byte>, at: nat, a: seq<byte>, b: seq<byte>)
    requires Stands(image, at, a + b)
    ensures Stands(image, at, a) && Stands(image, at + |a|, b)
  {
    var ab := image[at..at + |a + b|];
    assert image[at..at + |a|] == ab[..|a|] == a;
    assert image[at + |a|..at + |a| + |b|] == ab[|a|..] == b;
  }

  /** The bytes of image from position at on are the low n bytes of x. */
  ghost predicate Digits(image: seq<byte>, at: nat, x: nat, n: nat) {
    at + n <= |image| && forall i :: 0 <= i < n ==> image[at + i] == Digit(x, i)
  }

  lemma FieldDigits(image: seq<byte>, at: nat, x: nat, n: nat)
    requires Stands(image, at, Bytes(x, n))
    ensures Digits(image, at, x, n)
  {
    forall i | 0 <= i < n ensures image[at + i] == Digit(x, i) {
      assert image[at + i] == image[at..at + n][i];
    }
  }

  lemma DigitSkip2(x: nat, i: nat)
    ensures Digit(x, i + 2) == Digit(x / 0x1_0000, i)
  {
    assert Digit(x, i + 2) == Digit(x / 0x100, i + 1) == Digit(x / 0x100 / 0x100, i);
    assert x / 0x100 / 0x100 == x / 0x1_0000;
  }

  lemma DigitSkip4(x: nat, i: nat)
    ensures Digit(x, i + 4) == Digit(x / 0x1_0000_0000, i)
  {
    DigitSkip2(x, i + 2);
    DigitSkip2(x / 0x1_0000, i);
    assert x / 0x1_0000 / 0x1_0000 == x / 0x1_0000_0000;
  }

  lemma Read2(image: seq<byte>, at: nat, x: nat)
    requires Digits(image, at, x, 2)
    ensures Le2(image, at) == x % 0x1_0000
  {
    assert image[at + 0] == Digit(x, 0) && image[at + 1] == Digit(x, 1);
    assert Digit(x, 1) == Digit(x / 0x100, 0) == x / 0x100 % 0x100;
    Halves16(x);
  }

  lemma Halves16(x: nat)
    ensures x % 0x1_0000 == x % 0x100 + 0x100 * (x / 0x100 % 0x100)
  {
    var q, r := x / 0x100, x % 0x100;
    var hi, lo := q / 0x100, q % 0x100;
    assert x == 0x1_0000 * hi + (0x100 * lo + r);
  }

  lemma Halves32(x: nat)
    ensures x % 0x1_0000_0000 == x % 0x1_0000 + 0x1_0000 * (x / 0x1_0000 % 0x1_0000)
  {
    var q, r := x / 0x1_0000, x % 0x1_0000;
    var hi, lo := q / 0x1_0000, q % 0x1_0000;
    assert x == 0x1_0000_0000 * hi + (0x1_0000 * lo + r);
  }

  lemma Read4(image: seq<byte>, at: nat, x: nat)
    requires Digits(image, at, x, 4)
    ensures Le4(image, at) == x % 0x1_0000_0000
  {
    forall i | 0 <= i < 2 ensures image[at + 2 + i] == Digit(x / 0x1_0000, i) {
      DigitSkip2(x, i);
      assert image[at + (i + 2)] == Digit(x, i + 2);
    }
    Read2(image, at, x);
    Read2(image, at + 2, x / 0x1_0000);
    Halves32(x);
  }

  lemma Read8(image: seq<byte>, at: nat, x: nat)
    requires Digits(image, at, x, 8) && x < TWO64
    ensures Le8(image, at) == x
  {
    forall i | 0 <= i < 4 ensures image[at + 4 + i] == Digit(x / 0x1_0000_0000, i) {
      DigitSkip4(x, i);
      assert image[at + (i + 4)] == Digit(x, i + 4);
    }
    Read4(image, at, x);
    Read4(image, at + 4, x / 0x1_0000_0000);
  }

  lemma Field2(image: seq<byte>, at: nat, x: nat)
    requires Stands(image, at, Bytes(x, 2)) && x < 0x1_0000
    ensures Le2(image, at) == x
  {
    FieldDigits(image, at, x, 2);
    Read2(image, at, x);
  }

  lemma Field4(image: seq<byte>, at: nat, x: nat)
    requires Stands(image, at, Bytes(x, 4)) && x < 0x1_0000_0000
    ensures Le4(image, at) == x
  {
    FieldDigits(image, at, x, 4);
    Read4(image, at, x);
  }

  lemma Field8(image: seq<byte>, at: nat, x: nat)
    requires Stands(image, at, Bytes(x, 8)) && x < TWO64
    ensures Le8(image, at) == x
  {
    FieldDigits(image, at, x, 8);
    Read8(image, at, x);
  }

  /** A packed program header reads back field by field. */
  lemma SegmentReadBack(image: seq<byte>, at: nat, s: Segment)
    requires Stands(image, at, WriteSegment(s)) && Words64(s) && s.kind < 0x1_0000_0000
    ensures SegmentAt(image, at) == s
  {
    var b5 := Bytes(s.align, 8);
    var b4 := Bytes(s.memsz, 8) + b5;
    var b3 := Bytes(s.filesz, 8) + b4;
    var b2 := Bytes(s.vaddr, 8) + b3;
    var b1 := Bytes(s.offset, 8) + b2;
    StandsParts(image, at, Bytes(s.kind, 4), b1);
    StandsParts(image, at + 4, Bytes(s.offset, 8), b2);
    StandsParts(image, at + 12, Bytes(s.vaddr, 8), b3);
    StandsParts(image, at + 20, Bytes(s.filesz, 8), b4);
    StandsParts(image, at + 28, Bytes(s.memsz, 8), b5);
    Field4(image, at, s.kind);
    Field8(image, at + 4, s.offset);
    Field8(image, at + 12, s.vaddr);
    Field8(image, at + 20, s.filesz);
    Field8(image, at + 28, s.memsz);
    Field8(image, at + 36, s.align);
  }

  /** The packed file header reads back field by field. */
  lemma HeaderReadBack(image: seq<byte>, h: Header)
    requires Stands(image, 0, WriteHeader(h)) && Fields(h)
    ensures EHDR <= |image| && HeaderOf(image) == h
  {
    var b4 := Bytes(h.phnum, 2);
    var b3 := Bytes(h.phoff, 8) + b4;
    var b2 := Bytes(h.entry, 8) + b3;
    var b1 := Bytes(h.machine, 2) + b2;
    StandsParts(image, 0, Bytes(h.magic, 4), b1);
    StandsParts(image, 4, Bytes(h.machine, 2), b2);
    StandsParts(image, 6, Bytes(h.entry, 8), b3);
    StandsParts(image, 14, Bytes(h.phoff, 8), b4);
    Field4(image, 0, h.magic);
    Field2(image, 4, h.machine);
    Field8(image, 6, h.entry);
    Field8(image, 14, h.phoff);
    Field2(image, 22, h.phnum);
  }

  predicate Fields(h: Header) {
    h.magic < 0x1_0000_0000 && h.machine < 0x1_0000 && h.entry < TWO64 && h.phoff < TWO64 && h.phnum < 0x1_0000
  }

  ghost predicate AllWords(ss: seq<Segment>) {
    forall i :: 0 <= i < |ss| ==> Words64(ss[i]) && ss[i].kind < 0x1_0000_0000
  }

  lemma {:induction false} JoinParts(image: seq<byte>, at: nat, parts: seq<Packed>, i: nat)
    requires Stands(image, at, Join(parts)) && i < |parts|
    ensures Stands(image, at + i * PHDR, parts[i])
    decreases |parts|
  {
    var init := parts[..|parts| - 1];
    StandsParts(image, at, Join(init), parts[|parts| - 1]);
    if i == |init| {
    } else {
      JoinParts(image, at, init, i);
    }
  }

  lemma EntryReadBack(image: seq<byte>, at: nat, ss: seq<Segment>, i: nat)
    requires Stands(image, at, Join(Pack(ss))) && AllWords(ss) && i < |ss|
    ensures at + i * PHDR + PHDR <= |image| && SegmentAt(image, at + i * PHDR) == ss[i]
  {
    JoinParts(image, at, Pack(ss), i);
    SegmentReadBack(image, at + i * PHDR, ss[i]);
  }

  lemma TableIs(image: seq<byte>, at: nat, ss: seq<Segment>)
    requires at + |ss| * PHDR <= |image|
    requires forall i :: 0 <= i < |ss| ==> at + i * PHDR + PHDR <= |image| && SegmentAt(image, at + i * PHDR) == ss[i]
    ensures Table(image, at, |ss|) == ss
  {
  }

  lemma TableReadBack(image: seq<byte>, at: nat, ss: seq<Segment>)
    requires Stands(image, at, Join(Pack(ss))) && AllWords(ss)
    ensures at + |ss| * PHDR <= |image| && Table(image, at, |ss|) == ss
  {
    forall i | 0 <= i < |ss|
      ensures at + i * PHDR + PHDR <= |image| && SegmentAt(image, at + i * PHDR) == ss[i]
    {
      EntryReadBack(image, at, ss, i);
    }
    TableIs(image, at, ss);
  }

  /** An image: the header, its gap up to the table, the program headers, and the rest of the file. */
  function WriteImage(entry: nat, gap: seq<byte>, ss: seq<Segment>, rest: seq<byte>): (r: seq<byte>)
    ensures |r| == EHDR + |gap| + |ss| * PHDR + |rest|
  {
    WriteHeader(Header(MAGIC, MACHINE, entry, EHDR + |gap|, |ss|)) + gap + Join(Pack(ss)) + rest
  }

  /** Every image written so is read as it was written: the validator judges exactly its segments. */
  lemma ImageReadBack(entry: nat, gap: seq<byte>, ss: seq<Segment>, rest: seq<byte>)
    requires entry < TWO64 && |ss| < 0x1_0000 && AllWords(ss) && |WriteImage(entry, gap, ss, rest)| < TWO64
    ensures var image := WriteImage(entry, gap, ss, rest);
            && TableFits(image) && Readable(image)
            && HeaderOf(image) == Header(MAGIC, MACHINE, entry, EHDR + |gap|, |ss|) && Segments(image) == ss
  {
    var image, h := WriteImage(entry, gap, ss, rest), Header(MAGIC, MACHINE, entry, EHDR + |gap|, |ss|);
    assert Stands(image, 0, WriteHeader(h));
    HeaderReadBack(image, h);
    assert Stands(image, EHDR + |gap|, Join(Pack(ss)));
    TableReadBack(image, EHDR + |gap|, ss);
  }

  /** Such an image is accepted exactly when its entry lies in user space and every loadable segment passes. */
  lemma WrittenAcceptedIff(entry: nat, gap: seq<byte>, ss: seq<Segment>, rest: seq<byte>)
    requires entry < TWO64 && |ss| < 0x1_0000 && AllWords(ss) && |WriteImage(entry, gap, ss, rest)| < TWO64
    ensures var image := WriteImage(entry, gap, ss, rest);
            Accepted(image) <==>
            && USER_BASE <= entry
            && forall s :: s in ss && s.kind == PT_LOAD ==>
                 BoundsPass(s, |image|) && IsPow2(s.align) && USER_BASE <= s.vaddr
  {
    ImageReadBack(entry, gap, ss, rest);
    AcceptedIff(WriteImage(entry, gap, ss, rest));
  }
}
