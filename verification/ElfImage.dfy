/** The parts of an ELF file the loader looks at (System V ABI, chapters 4 and 5), and check_elf. */
module ElfImage {
  import opened Words

  const HEADER_SIZE := 52
  const PROGRAM_HEADER_SIZE := 32

  const ET_EXEC := 2
  const EM_386 := 3
  const PT_LOAD := 1

  function HalfAt(image: seq<Byte>, o: nat): nat
    requires o + 2 <= |image|
  {
    image[o] as int + 0x100 * image[o + 1] as int
  }

  function WordAt(image: seq<Byte>, o: nat): Word
    requires o + 4 <= |image|
  {
    image[o] as int + 0x100 * image[o + 1] as int + 0x1_0000 * image[o + 2] as int + 0x100_0000 * image[o + 3] as int
  }

  datatype Header = Header(ident: seq<Byte>, kind: nat, machine: nat, version: Word,
                           phoff: Word, phentsize: nat, phnum: nat)

  function HeaderOf(image: seq<Byte>): (h: Header)
    requires HEADER_SIZE <= |image|
    ensures |h.ident| == 7
  {
    Header(image[..7], HalfAt(image, 16), HalfAt(image, 18), WordAt(image, 20),
           WordAt(image, 28), HalfAt(image, 42), HalfAt(image, 44))
  }

  datatype Segment = Segment(kind: Word, offset: Word, vaddr: Word, filesz: Word, memsz: Word)

  /** Where program header `i` starts: the headers follow one another. */
  function HeaderOffset(h: Header, i: nat): nat {
    if i == 0 then h.phoff else HeaderOffset(h, i - 1) + h.phentsize
  }

  lemma {:induction false} HeaderOffsets(h: Header, i: nat)
    ensures HeaderOffset(h, i) == h.phoff + i * h.phentsize
  {
    if i > 0 {
      HeaderOffsets(h, i - 1);
    }
  }

  /** Every program header lies inside the file. */
  predicate HeadersInside(image: seq<Byte>, h: Header) {
    forall i: nat | i < h.phnum :: HeaderOffset(h, i) + PROGRAM_HEADER_SIZE <= |image|
  }

  function SegmentAt(image: seq<Byte>, o: nat): Segment
    requires o + PROGRAM_HEADER_SIZE <= |image|
  {
    Segment(WordAt(image, o), WordAt(image, o + 4), WordAt(image, o + 8), WordAt(image, o + 16), WordAt(image, o + 20))
  }

  /** The program headers, in order. */
  function SegmentsOf(image: seq<Byte>, h: Header): (segs: seq<Segment>)
    requires HeadersInside(image, h)
    ensures |segs| == h.phnum
    ensures forall i: nat | i < h.phnum :: segs[i] == SegmentAt(image, HeaderOffset(h, i))
  {
    seq(h.phnum, i requires 0 <= i < h.phnum => SegmentAt(image, HeaderOffset(h, i)))
  }

  // ----- the layout, written out -----

  /** 16-bit numbers one after the other, and 32-bit numbers, each with its lowest byte first. */
  function Halves(ns: seq<nat>): (b: seq<Byte>)
    requires forall k: nat | k < |ns| :: ns[k] < 0x1_0000
    ensures |b| == 2 * |ns|
  {
    if ns == [] then [] else [ns[0] % 256, ns[0] / 256] + Halves(ns[1..])
  }

  function Longs(ns: seq<Word>): (b: seq<Byte>)
    ensures |b| == 4 * |ns|
  {
    if ns == [] then [] else Halves([ns[0] % 65536, ns[0] / 65536]) + Longs(ns[1..])
  }

  /** A part of the image that starts with `a` has `b` behind it. */
  lemma Behind(image: seq<Byte>, o: nat, a: seq<Byte>, b: seq<Byte>)
    requires o + |a| + |b| <= |image| && image[o..o + |a| + |b|] == a + b
    ensures image[o..o + |a|] == a && image[o + |a|..o + |a| + |b|] == b
  {
    var all := image[o..o + |a| + |b|];
    assert all[..|a|] == a && all[|a|..] == b;
  }

  lemma {:induction false} HalvesRead(image: seq<Byte>, o: nat, ns: seq<nat>, k: nat)
    requires k < |ns| && forall i: nat | i < |ns| :: ns[i] < 0x1_0000
    requires o + 2 * |ns| <= |image| && image[o..o + 2 * |ns|] == Halves(ns)
    ensures HalfAt(image, o + 2 * k) == ns[k]
    decreases k
  {
    var first: seq<Byte> := [ns[0] % 256, ns[0] / 256];
    Behind(image, o, first, Halves(ns[1..]));
    if k == 0 {
      var b := image[o..o + 2];
      assert b[0] == image[o] && b[1] == image[o + 1];
    } else {
      HalvesRead(image, o + 2, ns[1..], k - 1);
    }
  }

  lemma LongRead(image: seq<Byte>, o: nat, n: Word)
    requires o + 4 <= |image| && image[o..o + 4] == Halves([n % 65536, n / 65536])
    ensures WordAt(image, o) == n
  {
    var ns := [n % 65536, n / 65536];
    HalvesRead(image, o, ns, 0);
    HalvesRead(image, o, ns, 1);
    assert WordAt(image, o) == HalfAt(image, o) + 65536 * HalfAt(image, o + 2);
  }

  lemma {:induction false} LongsRead(image: seq<Byte>, o: nat, ns: seq<Word>, k: nat)
    requires k < |ns| && o + 4 * |ns| <= |image| && image[o..o + 4 * |ns|] == Longs(ns)
    ensures WordAt(image, o + 4 * k) == ns[k]
    decreases k
  {
    Behind(image, o, Halves([ns[0] % 65536, ns[0] / 65536]), Longs(ns[1..]));
    if k == 0 {
      LongRead(image, o, ns[0]);
    } else {
      LongsRead(image, o + 4, ns[1..], k - 1);
    }
  }

  /** A program header reads as the values it was written with, in the order of the members of Elf32_Phdr. */
  lemma ProgramHeaderRead(image: seq<Byte>, o: nat, kind: Word, offset: Word, vaddr: Word, paddr: Word,
                          filesz: Word, memsz: Word, flags: Word, align: Word)
    requires o + 32 <= |image|
    requires image[o..o + 32] == Longs([kind, offset, vaddr, paddr, filesz, memsz, flags, align])
    ensures var s := SegmentAt(image, o);
            s.kind == kind && s.offset == offset && s.vaddr == vaddr && s.filesz == filesz && s.memsz == memsz
  {
    var ns := [kind, offset, vaddr, paddr, filesz, memsz, flags, align];
    LongsRead(image, o, ns, 0);
    LongsRead(image, o, ns, 1);
    LongsRead(image, o, ns, 2);
    LongsRead(image, o, ns, 4);
    LongsRead(image, o, ns, 5);
  }

  /** The headers follow one another at the distance the file header gives. */
  lemma NthHeaderRead(image: seq<Byte>, h: Header, j: nat, o: nat, kind: Word, offset: Word, vaddr: Word,
                      paddr: Word, filesz: Word, memsz: Word, flags: Word, align: Word)
    requires HeadersInside(image, h) && j < h.phnum && o == h.phoff + j * h.phentsize && o + 32 <= |image|
    requires image[o..o + 32] == Longs([kind, offset, vaddr, paddr, filesz, memsz, flags, align])
    ensures SegmentsOf(image, h)[j] == Segment(kind, offset, vaddr, filesz, memsz)
  {
    HeaderOffsets(h, j);
    ProgramHeaderRead(image, o, kind, offset, vaddr, paddr, filesz, memsz, flags, align);
    assert SegmentsOf(image, h)[j] == SegmentAt(image, HeaderOffset(h, j));
  }

  /**
   Likewise the file header, with the members of Elf32_Ehdr: 16 bytes of e_ident; e_type and e_machine;
   e_version, e_entry, e_phoff, e_shoff and e_flags; e_ehsize, e_phentsize, e_phnum and three more.
   */
  lemma FileHeaderRead(image: seq<Byte>, ident: seq<Byte>, kinds: seq<nat>, words: seq<Word>, sizes: seq<nat>)
    requires |ident| == 16 && |kinds| == 2 && |words| == 5 && |sizes| == 6
    requires forall k: nat | k < 2 :: kinds[k] < 0x1_0000
    requires forall k: nat | k < 6 :: sizes[k] < 0x1_0000
    requires 52 <= |image| && image[..52] == ident + (Halves(kinds) + (Longs(words) + Halves(sizes)))
    ensures HeaderOf(image) == Header(ident[..7], kinds[0], kinds[1], words[0], words[2], sizes[1], sizes[2])
  {
    FileHeaderParts(image, ident, Halves(kinds), Longs(words), Halves(sizes));
    KindsRead(image, kinds);
    WordsRead(image, words);
    SizesRead(image, sizes);
  }

  lemma FileHeaderParts(image: seq<Byte>, a: seq<Byte>, b: seq<Byte>, c: seq<Byte>, d: seq<Byte>)
    requires |a| == 16 && |b| == 4 && |c| == 20 && |d| == 12
    requires 52 <= |image| && image[..52] == a + (b + (c + d))
    ensures image[..7] == a[..7] && image[16..20] == b && image[20..40] == c && image[40..52] == d
  {
    assert image[0..52] == image[..52];
    Behind(image, 0, a, b + (c + d));
    Behind(image, 16, b, c + d);
    Behind(image, 20, c, d);
    assert image[..7] == image[0..16][..7];
  }

  lemma KindsRead(image: seq<Byte>, kinds: seq<nat>)
    requires |kinds| == 2 && forall k: nat | k < 2 :: kinds[k] < 0x1_0000
    requires 52 <= |image| && image[16..20] == Halves(kinds)
    ensures HalfAt(image, 16) == kinds[0] && HalfAt(image, 18) == kinds[1]
  {
    HalvesRead(image, 16, kinds, 0);
    HalvesRead(image, 16, kinds, 1);
  }

  lemma WordsRead(image: seq<Byte>, words: seq<Word>)
    requires |words| == 5 && 52 <= |image| && image[20..40] == Longs(words)
    ensures WordAt(image, 20) == words[0] && WordAt(image, 28) == words[2]
  {
    LongsRead(image, 20, words, 0);
    LongsRead(image, 20, words, 2);
  }

  lemma SizesRead(image: seq<Byte>, sizes: seq<nat>)
    requires |sizes| == 6 && forall k: nat | k < 6 :: sizes[k] < 0x1_0000
    requires 52 <= |image| && image[40..52] == Halves(sizes)
    ensures HalfAt(image, 42) == sizes[1] && HalfAt(image, 44) == sizes[2]
  {
    HalvesRead(image, 40, sizes, 1);
    HalvesRead(image, 40, sizes, 2);
  }

  // ----- check_elf and the tests behind it -----

  /** check_elf: 0 for an acceptable file, otherwise the number of the check that failed. */
  function CheckElf(h: Header): nat
    requires |h.ident| == 7
  {
    if h.ident[0] == 0x7f && h.ident[1] == 'E' as int && h.ident[2] == 'L' as int && h.ident[3] == 'F' as int then
      if h.ident[4] == 1 then
        if h.ident[5] == 1 then
          if h.ident[6] == 1 && h.version == 1 then 0 else 4
        else 3
      else 2
    else 1
  }

  datatype Verdict = NotElf | WrongMachine | NotExecutable | Acceptable

  function Judge(h: Header): Verdict
    requires |h.ident| == 7
  {
    if CheckElf(h) != 0 then NotElf
    else if h.machine != EM_386 then WrongMachine
    else if h.kind != ET_EXEC then NotExecutable
    else Acceptable
  }

  /**
   A file is accepted exactly if it starts with the magic number and says 32-bit, little-endian,
   version 1 (in both places), 386 and executable.
   */
  lemma AcceptableFiles(image: seq<Byte>)
    requires HEADER_SIZE <= |image|
    ensures Judge(HeaderOf(image)) == Acceptable <==>
            && image[..7] == [0x7f, 0x45, 0x4c, 0x46, 1, 1, 1]
            && image[16..24] == [2, 0, 3, 0, 1, 0, 0, 0]
  {
    var h := HeaderOf(image);
    assert forall k: nat | k < 7 :: h.ident[k] == image[k];
    var a, b := image[..7], image[16..24];
    assert forall k: nat | k < 8 :: b[k] == image[16 + k];
    if Judge(h) == Acceptable {
      assert b == [2, 0, 3, 0, 1, 0, 0, 0];
    }
  }

  /** What a loaded segment's page holds: the file's bytes, then zeros. */
  function Content(image: seq<Byte>, s: Segment): (c: seq<Byte>)
    requires s.filesz <= PAGE_SIZE && s.offset + s.filesz <= |image|
    ensures |c| == PAGE_SIZE
  {
    image[s.offset..s.offset + s.filesz] + seq(PAGE_SIZE - s.filesz, _ => 0)
  }

  lemma ContentAt(image: seq<Byte>, s: Segment, k: nat)
    requires s.filesz <= PAGE_SIZE && s.offset + s.filesz <= |image| && k < PAGE_SIZE
    ensures Content(image, s)[k] ==
            if k < s.filesz then image[s.offset..s.offset + s.filesz][k] else 0
  {
  }
}
