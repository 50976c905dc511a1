/**
 * The boot loader (boot/main.c, `readseg` and `bootmain`): an ELF image on disk
 * is loaded segment by segment, in whole sectors, so that each segment's first
 * and last sector may overwrite what lies next to it.
 */
module BootLoader {
  import opened Machine

  const SECTSIZE := 512
  const ELFHDR := 0x1_0000
  const HEADER_SIZE := 4096
  const ELF_MAGIC := 0x464C_457F

  /** The bytes of the disk; the image starts at its second sector. */
  type Disk = nat -> Byte

  function Image(disk: Disk, k: nat): Byte {
    disk(SECTSIZE + k)
  }

  // ---------- Sectors ----------

  function RoundDown(a: nat): (r: nat)
    ensures r <= a < r + SECTSIZE && r % SECTSIZE == 0
  {
    a - a % SECTSIZE
  }

  /** Where the sectors read for [pa, pa + count) end. */
  function ReadEnd(pa: nat, count: nat): (r: nat)
    ensures r % SECTSIZE == 0 && pa + count <= r
    ensures r == RoundDown(pa) || r < pa + count + SECTSIZE
    ensures RoundDown(pa) <= r
  {
    RoundDown(pa + count + SECTSIZE - 1)
  }

  /** The byte that ends up at `a` when `a` is among the sectors read for a segment. */
  function SectorByte(disk: Disk, pa: nat, offset: nat, a: nat): Byte
    requires RoundDown(pa) <= a
  {
    Image(disk, RoundDown(offset) + (a - RoundDown(pa)))
  }

  /** `readsect`, taken as one step of the machine: a sector of the disk to memory. */
  method ReadSect(mem: array<Byte>, dst: nat, disk: Disk, sector: nat)
    requires dst + SECTSIZE <= mem.Length
    modifies mem
    ensures forall a :: 0 <= a < mem.Length ==>
              mem[a] == if dst <= a < dst + SECTSIZE then disk(SECTSIZE * sector + (a - dst)) else old(mem[a])
  {
    for k := 0 to SECTSIZE
      invariant forall a :: 0 <= a < mem.Length ==>
                  mem[a] == if dst <= a < dst + k then disk(SECTSIZE * sector + (a - dst)) else old(mem[a])
    {
      mem[dst + k] := disk(SECTSIZE * sector + k);
    }
  }

  lemma NextSector(pa: nat, count: nat, p: nat)
    requires RoundDown(pa) <= p < pa + count && p % SECTSIZE == 0
    ensures p + SECTSIZE <= ReadEnd(pa, count) && (p + SECTSIZE) % SECTSIZE == 0
    ensures RoundDown(pa) < ReadEnd(pa, count)
  {
  }

  lemma SectorBytes(disk: Disk, pa: nat, offset: nat, p: nat, sector: nat)
    requires RoundDown(pa) <= p
    requires SECTSIZE * sector == SECTSIZE + RoundDown(offset) + (p - RoundDown(pa))
    ensures forall a :: p <= a < p + SECTSIZE ==>
              disk(SECTSIZE * sector + (a - p)) == SectorByte(disk, pa, offset, a)
  {
    hide RoundDown;
    forall a | p <= a < p + SECTSIZE
      ensures disk(SECTSIZE * sector + (a - p)) == SectorByte(disk, pa, offset, a)
    {
      assert SECTSIZE * sector + (a - p) == SECTSIZE + (RoundDown(offset) + (a - RoundDown(pa)));
    }
  }

  /** `readseg`: the bytes asked for, and those around them in the same sectors. */
  method ReadSeg(mem: array<Byte>, pa: nat, count: nat, offset: nat, disk: Disk)
    requires RoundDown(pa) < ReadEnd(pa, count) ==> ReadEnd(pa, count) <= mem.Length
    modifies mem
    ensures forall a :: 0 <= a < mem.Length ==>
              mem[a] == if RoundDown(pa) <= a < ReadEnd(pa, count) then SectorByte(disk, pa, offset, a)
                        else old(mem[a])
  {
    var end := pa + count;
    var p := pa - pa % SECTSIZE;
    var sector := offset / SECTSIZE + 1;
    while p < end
      invariant RoundDown(pa) <= p <= ReadEnd(pa, count) && p % SECTSIZE == 0
      invariant SECTSIZE * sector == SECTSIZE + RoundDown(offset) + (p - RoundDown(pa))
      invariant forall a :: 0 <= a < mem.Length ==>
                  mem[a] == if RoundDown(pa) <= a < p then SectorByte(disk, pa, offset, a) else old(mem[a])
    {
      hide RoundDown, ReadEnd, SectorByte;
      NextSector(pa, count, p);
      SectorBytes(disk, pa, offset, p, sector);
      ReadSect(mem, p, disk, sector);
      p := p + SECTSIZE;
      sector := sector + 1;
    }
  }

  // ---------- The image ----------

  /** The first page of the image, which holds its header and its program headers. */
  function Page(disk: Disk): (h: seq<Byte>)
    ensures |h| == HEADER_SIZE
  {
    seq(HEADER_SIZE, k requires 0 <= k < HEADER_SIZE => Image(disk, k))
  }

  /** A little-endian word. */
  function Field(h: seq<Byte>, k: nat): Word
    requires k + 4 <= |h|
  {
    (h[k] as int) + (h[k + 1] as int) * 0x100 + (h[k + 2] as int) * 0x1_0000 + (h[k + 3] as int) * 0x100_0000
  }

  /** `struct elf`, as far as it is used. */
  datatype Header = Header(magic: Word, entry: Word, phoff: Word, phnum: Half)

  function HeaderOf(h: seq<Byte>): Header
    requires |h| == HEADER_SIZE
  {
    Header(Field(h, 0), Field(h, 24), Field(h, 28), (h[44] as int) + (h[45] as int) * 0x100)
  }

  /** `struct elf_proghdr`, as far as it is used. */
  datatype Segment = Segment(pa: Word, memsz: Word, offset: Word)
  {
    /** The bytes of memory that loading this segment writes. */
    predicate Writes(a: nat) {
      RoundDown(pa) <= a < ReadEnd(pa, memsz)
    }

    /** The bytes that belong to it. */
    predicate Covers(a: nat) {
      pa <= a < pa + memsz
    }
  }

  /** A program header takes 32 bytes. */
  function SegmentAt(h: seq<Byte>, k: nat): Segment
    requires k + 32 <= |h|
  {
    Segment(Field(h, k + 12), Field(h, k + 20), Field(h, k + 4))
  }

  function Segments(h: seq<Byte>): seq<Segment>
    requires |h| == HEADER_SIZE && HeaderOf(h).phoff + 32 * HeaderOf(h).phnum <= HEADER_SIZE
  {
    seq(HeaderOf(h).phnum, i requires 0 <= i < HeaderOf(h).phnum => SegmentAt(h, HeaderOf(h).phoff + 32 * i))
  }

  predicate InHeaderPage(a: nat) {
    ELFHDR <= a < ELFHDR + HEADER_SIZE
  }

  // ---------- The layout of the headers ----------

  /** A word and a half-word as they lie in memory, the least significant byte first. */
  function WordBytes(w: Word): (b: seq<Byte>)
    ensures |b| == 4
  {
    [w % 0x100, w / 0x100 % 0x100, w / 0x1_0000 % 0x100, w / 0x100_0000]
  }

  function HalfBytes(w: Half): (b: seq<Byte>)
    ensures |b| == 2
  {
    [w % 0x100, w / 0x100]
  }

  lemma WordRead(h: seq<Byte>, k: nat, w: Word)
    requires k + 4 <= |h| && h[k..k + 4] == WordBytes(w)
    ensures Field(h, k) == w
  {
    var b := h[k..k + 4];
    assert h[k] == b[0] && h[k + 1] == b[1] && h[k + 2] == b[2] && h[k + 3] == b[3];
    WordParts(w);
  }

  lemma WordParts(w: Word)
    ensures w % 0x100 + w / 0x100 % 0x100 * 0x100 + w / 0x1_0000 % 0x100 * 0x1_0000 + w / 0x100_0000 * 0x100_0000 == w
  {
    var a := w / 0x100;
    var b := a / 0x100;
    assert w / 0x1_0000 == b && w / 0x100_0000 == b / 0x100;
  }

  /** All fields of `struct elf`, in their order; the identification bytes after the magic number are 12. */
  datatype ElfHeader = ElfHeader(
    magic: Word, ident: seq<Byte>, etype: Half, machine: Half, version: Word, entry: Word, phoff: Word, shoff: Word,
    flags: Word, ehsize: Half, phentsize: Half, phnum: Half, shentsize: Half, shnum: Half, shstrndx: Half)
  {
    function Bytes(): seq<Byte> {
      WordBytes(magic) + ident + HalfBytes(etype) + HalfBytes(machine) + WordBytes(version)
      + WordBytes(entry) + WordBytes(phoff) + WordBytes(shoff) + WordBytes(flags)
      + HalfBytes(ehsize) + HalfBytes(phentsize) + HalfBytes(phnum)
      + HalfBytes(shentsize) + HalfBytes(shnum) + HalfBytes(shstrndx)
    }
  }

  /** All fields of `struct elf_proghdr`, in their order. */
  datatype ProgramHeader = ProgramHeader(
    ptype: Word, offset: Word, va: Word, pa: Word, filesz: Word, memsz: Word, flags: Word, align: Word)
  {
    function Bytes(): (b: seq<Byte>)
      ensures |b| == 32
    {
      WordBytes(ptype) + WordBytes(offset) + WordBytes(va) + WordBytes(pa)
      + WordBytes(filesz) + WordBytes(memsz) + WordBytes(flags) + WordBytes(align)
    }
  }

  /** The loader takes the fields it uses from where the structures have them. */
  lemma HeaderDecodes(e: ElfHeader, h: seq<Byte>)
    requires |e.ident| == 12 && |h| == HEADER_SIZE && e.Bytes() <= h
    ensures HeaderOf(h) == Header(e.magic, e.entry, e.phoff, e.phnum)
  {
    hide WordBytes, HalfBytes, Field;
    var b := e.Bytes();
    assert |b| == 52;
    assert forall k, n :: 0 <= k <= n <= 52 ==> h[k..n] == b[k..n];
    assert b[0..4] == WordBytes(e.magic);
    assert b[24..28] == WordBytes(e.entry) && b[28..32] == WordBytes(e.phoff);
    assert b[44..46] == HalfBytes(e.phnum);
    WordRead(h, 0, e.magic);
    WordRead(h, 24, e.entry);
    WordRead(h, 28, e.phoff);
    HalfRead(h, e.phnum);
  }

  lemma HalfRead(h: seq<Byte>, w: Half)
    requires |h| == HEADER_SIZE && h[44..46] == HalfBytes(w)
    ensures (h[44] as int) + (h[45] as int) * 0x100 == w
  {
    assert h[44] == h[44..46][0] && h[45] == h[44..46][1];
  }

  lemma WordAt(h: seq<Byte>, k: nat, m: nat)
    requires k + 32 <= |h| && m + 4 <= 32
    ensures h[k..k + 32][m..m + 4] == h[k + m..k + m + 4]
  {
    var a, b := h[k..k + 32][m..m + 4], h[k + m..k + m + 4];
    forall i | 0 <= i < 4
      ensures a[i] == b[i]
    {
      assert a[i] == h[k..k + 32][m + i] == h[k + m + i];
    }
  }

  lemma SegmentDecodes(p: ProgramHeader, h: seq<Byte>, k: nat)
    requires k + 32 <= |h| && h[k..k + 32] == p.Bytes()
    ensures SegmentAt(h, k) == Segment(p.pa, p.memsz, p.offset)
  {
    hide WordBytes, Field;
    var b := h[k..k + 32];
    WordAt(h, k, 4);
    WordAt(h, k, 12);
    WordAt(h, k, 20);
    assert b[4..8] == WordBytes(p.offset) && b[12..16] == WordBytes(p.pa) && b[20..24] == WordBytes(p.memsz);
    WordRead(h, k + 12, p.pa);
    WordRead(h, k + 20, p.memsz);
    WordRead(h, k + 4, p.offset);
  }

  /** A table of program headers, 32 bytes each, is read as its segments in order. */
  lemma TableDecodes(e: ElfHeader, ps: seq<ProgramHeader>, h: seq<Byte>)
    requires |e.ident| == 12 && |h| == HEADER_SIZE && e.Bytes() <= h
    requires e.phnum == |ps| && e.phoff + 32 * |ps| <= HEADER_SIZE
    requires forall i :: 0 <= i < |ps| ==> h[e.phoff + 32 * i..e.phoff + 32 * i + 32] == ps[i].Bytes()
    ensures HeaderOf(h).phoff + 32 * HeaderOf(h).phnum <= HEADER_SIZE && |Segments(h)| == |ps|
    ensures forall i :: 0 <= i < |ps| ==> Segments(h)[i] == Segment(ps[i].pa, ps[i].memsz, ps[i].offset)
  {
    hide HeaderOf, SegmentAt, ElfHeader.Bytes, ProgramHeader.Bytes;
    HeaderDecodes(e, h);
    forall i | 0 <= i < |ps|
      ensures SegmentAt(h, e.phoff + 32 * i) == Segment(ps[i].pa, ps[i].memsz, ps[i].offset)
    {
      SegmentDecodes(ps[i], h, e.phoff + 32 * i);
    }
  }

  /** The magic number is 0x7f and the letters ELF. */
  lemma MagicBytes(h: seq<Byte>)
    requires |h| == HEADER_SIZE
    ensures HeaderOf(h).magic == ELF_MAGIC <==> h[..4] == [0x7f, 'E' as int, 'L' as int, 'F' as int]
  {
  }

  /** Loading the segment writes neither past the end of memory nor over the header page. */
  ghost predicate Harmless(s: Segment, size: nat) {
    forall a: nat :: s.Writes(a) ==> a < size && !InHeaderPage(a)
  }

  /** An image whose program headers are in its first page, and stay there, and whose segments fit into memory. */
  ghost predicate Loadable(h: seq<Byte>, size: nat)
    requires |h| == HEADER_SIZE
  {
    && HeaderOf(h).phoff + 32 * HeaderOf(h).phnum <= HEADER_SIZE
    && forall s :: s in Segments(h) ==> Harmless(s, size)
  }

  /**
   * Which byte of the image is at `a` once these segments were read, or -1: the
   * last one to write there counts.
   */
  function Source(segs: seq<Segment>, a: nat): (k: int)
    ensures k >= -1
  {
    if segs == [] then -1
    else
      var s := segs[|segs| - 1];
      if s.Writes(a) then RoundDown(s.offset) + (a - RoundDown(s.pa)) else Source(segs[..|segs| - 1], a)
  }

  /** What is at `a` once the header page and then these segments were read. */
  function After(disk: Disk, segs: seq<Segment>, before: seq<Byte>, a: nat): Byte
    requires a < |before|
  {
    var k := Source(segs, a);
    if k >= 0 then Image(disk, k)
    else if InHeaderPage(a) then Image(disk, a - ELFHDR)
    else before[a]
  }

  ghost predicate Loaded(mem: seq<Byte>, disk: Disk, segs: seq<Segment>, before: seq<Byte>) {
    && |mem| == |before|
    && forall a :: 0 <= a < |mem| ==> mem[a] == After(disk, segs, before, a)
  }

  lemma LoadedHeader(mem: seq<Byte>, disk: Disk, before: seq<Byte>)
    requires ELFHDR + HEADER_SIZE <= |mem| == |before|
    requires forall a :: 0 <= a < |mem| ==>
               mem[a] == if ELFHDR <= a < ELFHDR + HEADER_SIZE then SectorByte(disk, ELFHDR, 0, a) else before[a]
    ensures Loaded(mem, disk, [], before)
  {
  }

  /** The segments loaded so far leave the header page as it was read. */
  lemma HeaderStays(mem: seq<Byte>, disk: Disk, segs: seq<Segment>, before: seq<Byte>)
    requires Loaded(mem, disk, segs, before) && ELFHDR + HEADER_SIZE <= |mem|
    requires forall s :: s in segs ==> Harmless(s, |mem|)
    ensures mem[ELFHDR..ELFHDR + HEADER_SIZE] == Page(disk)
  {
    forall a | ELFHDR <= a < ELFHDR + HEADER_SIZE
      ensures Source(segs, a) == -1
    {
      NoSource(segs, a);
    }
  }

  lemma {:induction false} NoSource(segs: seq<Segment>, a: nat)
    requires forall s :: s in segs ==> !s.Writes(a)
    ensures Source(segs, a) == -1
    decreases |segs|
  {
    if segs != [] {
      NoSource(segs[..|segs| - 1], a);
    }
  }

  lemma HarmlessEnd(s: Segment, size: nat)
    requires Harmless(s, size)
    ensures RoundDown(s.pa) < ReadEnd(s.pa, s.memsz) ==> ReadEnd(s.pa, s.memsz) <= size
  {
    if RoundDown(s.pa) < ReadEnd(s.pa, s.memsz) {
      assert s.Writes(ReadEnd(s.pa, s.memsz) - 1);
    }
  }

  lemma LoadedNext(mem: seq<Byte>, next: seq<Byte>, disk: Disk, segs: seq<Segment>, i: nat, before: seq<Byte>)
    requires i < |segs| && Loaded(mem, disk, segs[..i], before) && |next| == |mem|
    requires forall a :: 0 <= a < |mem| ==>
               next[a] == if segs[i].Writes(a) then SectorByte(disk, segs[i].pa, segs[i].offset, a) else mem[a]
    ensures Loaded(next, disk, segs[..i + 1], before)
  {
    assert segs[..i + 1][..i] == segs[..i];
  }

  datatype Outcome = Bad | Jump(entry: Word)

  /** `bootmain`: what is in memory when it jumps to the kernel, or gives up. */
  method Bootmain(mem: array<Byte>, disk: Disk) returns (r: Outcome)
    requires ELFHDR + HEADER_SIZE <= mem.Length < WORD_LIMIT
    requires HeaderOf(Page(disk)).magic == ELF_MAGIC ==> Loadable(Page(disk), mem.Length)
    modifies mem
    ensures var h := Page(disk);
            if HeaderOf(h).magic != ELF_MAGIC then r == Bad && Loaded(mem[..], disk, [], old(mem[..]))
            else r == Jump(HeaderOf(h).entry) && Loaded(mem[..], disk, Segments(h), old(mem[..]))
  {
    hide Loaded, Field, Segment.Writes;
    ghost var before, page := mem[..], Page(disk);
    ReadSeg(mem, ELFHDR, SECTSIZE * 8, 0, disk);
    LoadedHeader(mem[..], disk, before);
    HeaderStays(mem[..], disk, [], before);
    var h := mem[ELFHDR..ELFHDR + HEADER_SIZE];
    if Field(h, 0) != ELF_MAGIC {
      return Bad;
    }
    ghost var segs := Segments(page);
    var ph, eph := HeaderOf(h).phoff, HeaderOf(h).phoff + 32 * HeaderOf(h).phnum;
    ghost var i := 0;
    while ph < eph
      invariant 0 <= i <= |segs| && ph == HeaderOf(page).phoff + 32 * i
      invariant mem[ELFHDR..ELFHDR + HEADER_SIZE] == page && Loaded(mem[..], disk, segs[..i], before)
    {
      LoadOne(mem, ph, disk, segs, i, before);
      ph := ph + 32;
      i := i + 1;
    }
    assert segs[..i] == segs;
    return Jump(Field(mem[ELFHDR..ELFHDR + HEADER_SIZE], 24));
  }

  /** One round of the loop over the program headers, which are read from memory. */
  method LoadOne(mem: array<Byte>, ph: nat, disk: Disk, ghost segs: seq<Segment>, ghost i: nat, ghost before: seq<Byte>)
    requires ELFHDR + HEADER_SIZE <= mem.Length
    requires Loadable(Page(disk), mem.Length) && segs == Segments(Page(disk)) && i < |segs|
    requires ph == HeaderOf(Page(disk)).phoff + 32 * i
    requires mem[ELFHDR..ELFHDR + HEADER_SIZE] == Page(disk) && Loaded(mem[..], disk, segs[..i], before)
    modifies mem
    ensures mem[ELFHDR..ELFHDR + HEADER_SIZE] == Page(disk) && Loaded(mem[..], disk, segs[..i + 1], before)
  {
    hide Loaded, Field;
    var s := SegmentAt(mem[ELFHDR..ELFHDR + HEADER_SIZE], ph);
    assert s == segs[i] && s in segs;
    HarmlessEnd(s, mem.Length);
    ReadSeg(mem, s.pa, s.memsz, s.offset, disk);
    LoadedNext(old(mem[..]), mem[..], disk, segs, i, before);
    HeaderStays(mem[..], disk, segs[..i + 1], before);
  }

  // ---------- When every segment survives ----------

  /** All of the segment's bytes come from its own place in the image. */
  ghost predicate Intact(segs: seq<Segment>, s: Segment) {
    forall a: nat :: s.Covers(a) ==> Source(segs, a) == a - s.pa + s.offset
  }

  /** A segment starts at the same place in a sector in memory and on disk. */
  predicate Congruent(s: Segment) {
    s.pa % SECTSIZE == s.offset % SECTSIZE
  }

  /** What is read for `t` misses `s`, or the bytes read are the right ones for `s`, too. */
  ghost predicate Spares(t: Segment, s: Segment) {
    t.pa - t.offset == s.pa - s.offset || forall a: nat :: !(t.Writes(a) && s.Covers(a))
  }

  /**
   * If no segment spoils an earlier one, all are intact at the end, although
   * each is read with everything else in its first and last sector.
   */
  lemma {:induction false} SparedIsIntact(segs: seq<Segment>)
    requires forall s :: s in segs ==> Congruent(s)
    requires forall i, j :: 0 <= i < j < |segs| ==> Spares(segs[j], segs[i])
    ensures forall s :: s in segs ==> Intact(segs, s)
    decreases |segs|
  {
    if segs != [] {
      var n := |segs| - 1;
      SparedIsIntact(segs[..n]);
      assert segs[n] in segs && Congruent(segs[n]);
      assert RoundDown(segs[n].offset) - RoundDown(segs[n].pa) == segs[n].offset - segs[n].pa;
      forall i | 0 <= i <= n
        ensures Intact(segs, segs[i])
      {
        forall a: nat | segs[i].Covers(a)
          ensures Source(segs, a) == a - segs[i].pa + segs[i].offset
        {
          if i < n {
            assert segs[i] in segs[..n] && Intact(segs[..n], segs[i]);
            assert Spares(segs[n], segs[i]);
          }
        }
      }
    }
  }

  /** The last segment to write a sector decides where all of its bytes come from. */
  lemma {:induction false} SectorSource(segs: seq<Segment>, a: nat, b: nat)
    requires RoundDown(a) == RoundDown(b)
    ensures if Source(segs, a) < 0 then Source(segs, b) < 0 else Source(segs, a) - a == Source(segs, b) - b
    decreases |segs|
  {
    if segs != [] {
      SameSector(segs[|segs| - 1], a, b);
      SectorSource(segs[..|segs| - 1], a, b);
    }
  }

  lemma SameSector(s: Segment, a: nat, b: nat)
    requires RoundDown(a) == RoundDown(b)
    ensures s.Writes(a) <==> s.Writes(b)
  {
  }

  /** Every sector read for a segment that is not empty holds some byte of it. */
  lemma OwnByteInSector(t: Segment, a: nat) returns (b: nat)
    requires t.memsz > 0 && t.Writes(a)
    ensures RoundDown(b) == RoundDown(a) && t.Covers(b)
  {
    b := if a < t.pa then t.pa else if a < t.pa + t.memsz then a else t.pa + t.memsz - 1;
    if a < t.pa {
      SameRow(a, t.pa, RoundDown(t.pa));
    } else if a >= t.pa + t.memsz {
      SameRow(b, a, ReadEnd(t.pa, t.memsz) - SECTSIZE);
    }
  }

  lemma SameRow(a: nat, b: nat, start: int)
    requires start % SECTSIZE == 0 && 0 <= start <= a <= b < start + SECTSIZE
    ensures RoundDown(a) == start == RoundDown(b)
  {
  }

  /** Every segment starts at the same place in a sector in memory and on disk, and none spoils an earlier one. */
  ghost predicate Consistent(segs: seq<Segment>) {
    && (forall s :: s in segs ==> Congruent(s))
    && forall i, j :: 0 <= i < j < |segs| ==> Spares(segs[j], segs[i])
  }

  /** Loading keeps every byte's place in its sector. */
  lemma {:induction false} SourceCongruent(segs: seq<Segment>, a: nat)
    ensures Source(segs, a) >= 0 ==> Source(segs, a) % SECTSIZE == a % SECTSIZE
    decreases |segs|
  {
    if segs != [] {
      var s := segs[|segs| - 1];
      if s.Writes(a) {
        assert (RoundDown(s.offset) + (a - RoundDown(s.pa))) % SECTSIZE == a % SECTSIZE;
      } else {
        SourceCongruent(segs[..|segs| - 1], a);
      }
    }
  }

  lemma IntactIsCongruent(segs: seq<Segment>, s: Segment)
    requires Intact(segs, s) && s.memsz > 0
    ensures Congruent(s)
  {
    assert s.Covers(s.pa);
    SourceCongruent(segs, s.pa);
  }

  /**
   * The exact condition, for segments that are not empty: all of them are
   * intact if and only if each starts at the same place in a sector in memory
   * and on disk and none spoils an earlier one.
   */
  lemma IntactIffConsistent(segs: seq<Segment>)
    requires forall s :: s in segs ==> s.memsz > 0
    ensures (forall s :: s in segs ==> Intact(segs, s)) <==> Consistent(segs)
  {
    if Consistent(segs) {
      SparedIsIntact(segs);
    }
    if forall s :: s in segs ==> Intact(segs, s) {
      forall s | s in segs
        ensures Congruent(s)
      {
        IntactIsCongruent(segs, s);
      }
      forall i, j | 0 <= i < j < |segs|
        ensures Spares(segs[j], segs[i])
      {
        IntactPairSpares(segs, segs[i], segs[j]);
      }
    }
  }

  /** A byte's place in the image minus its place in memory, for all bytes read for a segment. */
  function Shift(s: Segment): int {
    RoundDown(s.offset) - RoundDown(s.pa)
  }

  /** Loading `t` brings another byte than its own to an address of `s`. */
  predicate Spoils(t: Segment, s: Segment, a: nat) {
    s.Covers(a) && t.Writes(a) && Shift(t) != Shift(s)
  }

  /** Wherever a segment spoils an earlier one, a later segment writes once more. */
  ghost predicate Repaired(segs: seq<Segment>) {
    forall i, j, a: nat :: 0 <= i < j < |segs| && Spoils(segs[j], segs[i], a)
      ==> exists k :: j < k < |segs| && segs[k].Writes(a)
  }

  lemma {:induction false} LastWriter(segs: seq<Segment>, i: nat, a: nat) returns (j: nat)
    requires i < |segs| && segs[i].Writes(a)
    ensures i <= j < |segs| && segs[j].Writes(a) && Source(segs, a) == a + Shift(segs[j])
    ensures forall k :: j < k < |segs| ==> !segs[k].Writes(a)
    decreases |segs|
  {
    var n := |segs| - 1;
    if segs[n].Writes(a) {
      j := n;
    } else {
      j := LastWriter(segs[..n], i, a);
    }
  }

  /** Segments that are not empty are congruent, and what is spoilt is repaired. */
  ghost predicate Recoverable(segs: seq<Segment>) {
    (forall s :: s in segs && s.memsz > 0 ==> Congruent(s)) && Repaired(segs)
  }

  /**
   * The exact condition for all segments.  An empty one need not be congruent,
   * and what it spoils with its one sector may be written again by a later one.
   */
  lemma IntactIffRecoverable(segs: seq<Segment>)
    ensures (forall s :: s in segs ==> Intact(segs, s)) <==> Recoverable(segs)
  {
    if Recoverable(segs) {
      forall i, a: nat | 0 <= i < |segs| && segs[i].Covers(a)
        ensures Source(segs, a) == a - segs[i].pa + segs[i].offset
      {
        var j := LastWriter(segs, i, a);
        assert segs[i] in segs && Shift(segs[i]) == segs[i].offset - segs[i].pa;
        assert j > i ==> !Spoils(segs[j], segs[i], a);
      }
    }
    if forall s :: s in segs ==> Intact(segs, s) {
      forall s | s in segs && s.memsz > 0
        ensures Congruent(s)
      {
        IntactIsCongruent(segs, s);
      }
      IntactIsRepaired(segs);
    }
  }

  lemma IntactIsRepaired(segs: seq<Segment>)
    requires forall s :: s in segs ==> Intact(segs, s)
    ensures Repaired(segs)
  {
    forall i, j, a: nat | 0 <= i < j < |segs| && Spoils(segs[j], segs[i], a)
      ensures exists k :: j < k < |segs| && segs[k].Writes(a)
    {
      var last := LastWriter(segs, j, a);
      assert Intact(segs, segs[i]);
      IntactIsCongruent(segs, segs[i]);
    }
  }

  lemma IntactPairSpares(segs: seq<Segment>, s: Segment, t: Segment)
    requires Intact(segs, s) && Intact(segs, t) && t.memsz > 0
    ensures Spares(t, s)
  {
    forall a: nat | t.Writes(a) && s.Covers(a)
      ensures t.pa - t.offset == s.pa - s.offset
    {
      var b := OwnByteInSector(t, a);
      SectorSource(segs, a, b);
    }
  }

  /** Segments that each end before the sector in which a later one starts spoil nothing. */
  lemma SeparateSectorsSpare(segs: seq<Segment>)
    requires forall i, j :: 0 <= i < j < |segs| ==> segs[i].pa + segs[i].memsz <= RoundDown(segs[j].pa)
    ensures forall i, j :: 0 <= i < j < |segs| ==> Spares(segs[j], segs[i])
  {
  }

  /** So consistent segments are recoverable, and without empty segments the two are the same. */
  lemma ConsistentIsRecoverable(segs: seq<Segment>)
    ensures Consistent(segs) ==> Recoverable(segs)
    ensures (forall s :: s in segs ==> s.memsz > 0) ==> (Consistent(segs) <==> Recoverable(segs))
  {
    IntactIffRecoverable(segs);
    if Consistent(segs) {
      SparedIsIntact(segs);
    }
    if forall s :: s in segs ==> s.memsz > 0 {
      IntactIffConsistent(segs);
    }
  }

  lemma RecoverableSource(segs: seq<Segment>, s: Segment, i: nat)
    requires Recoverable(segs) && s in segs && i < s.memsz
    ensures Source(segs, s.pa + i) == s.offset + i
  {
    IntactIffRecoverable(segs);
    assert Intact(segs, s) && s.Covers(s.pa + i);
  }

  lemma SegmentInMemory(h: seq<Byte>, size: nat, s: Segment, i: nat)
    requires |h| == HEADER_SIZE && Loadable(h, size) && s in Segments(h) && i < s.memsz
    ensures s.pa + i < size
  {
    assert Harmless(s, size) && s.Writes(s.pa + i);
  }

  /** The rest of memory: the first page of the image at 0x10000, and what was there before everywhere else. */
  lemma RestOfMemory(mem: seq<Byte>, disk: Disk, before: seq<Byte>, segs: seq<Segment>, a: nat)
    requires Loaded(mem, disk, segs, before) && a < |mem|
    requires forall s :: s in segs ==> !(s.pa - 512 < a < s.pa + s.memsz + 512)
    ensures mem[a] == if 0x1_0000 <= a < 0x1_1000 then disk(512 + (a - 0x1_0000)) else before[a]
  {
    NoSource(segs, a);
  }

  /**
   * When the loader jumps to a kernel whose segments are recoverable, each of
   * them is in memory byte for byte as it is in the image.
   */
  lemma KernelLoaded(mem: seq<Byte>, disk: Disk, before: seq<Byte>, s: Segment, i: nat)
    requires Loadable(Page(disk), |mem|) && Loaded(mem, disk, Segments(Page(disk)), before)
    requires Recoverable(Segments(Page(disk))) && s in Segments(Page(disk)) && i < s.memsz
    ensures s.pa + i < |mem| && mem[s.pa + i] == disk(512 + s.offset + i)
  {
    hide Segments, Recoverable, Page, Source;
    SegmentInMemory(Page(disk), |mem|, s, i);
    RecoverableSource(Segments(Page(disk)), s, i);
  }
}
