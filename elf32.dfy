/*
 * The 32-bit ELF vocabulary (generic/include/elf32.h): identification
 * indexes and magic, file classes and data encodings, object and machine
 * types, section, symbol and segment constants, the loader's result codes,
 * and the header, section-header, symbol and program-header records.
 *
 * The layouts are those of the Tool Interface Standard Executable and
 * Linking Format 1.2, Book I: Figure 1-3 (ELF header), Figure 1-4 (e_ident
 * indexes), Figure 1-8 (section header), Figure 1-15 (symbol table entry)
 * and Figure 2-1 (program header). Each record is read from a byte
 * sequence at fixed offsets, in the byte order the identification names;
 * its fields follow one another without padding.
 */
module Elf32 {
  import opened Wrappers

  type Byte = b: nat | b < 0x100
  /** elf32_half */
  type Half = h: nat | h < 0x1_0000
  /** elf32_word, elf32_addr and elf32_off */
  type Word = w: nat | w < 0x1_0000_0000

  /* ---------------------------------------------------------------------- */
  /* Constants                                                               */
  /* ---------------------------------------------------------------------- */

  const EV_CURRENT: Word := 1

  const ET_NONE: Half := 0
  const ET_REL: Half := 1
  const ET_EXEC: Half := 2
  const ET_DYN: Half := 3
  const ET_CORE: Half := 4
  const ET_LOPROC: Half := 0xff00
  const ET_HIPROC: Half := 0xffff

  const EM_NO: Half := 0
  const EM_SPARC: Half := 2
  const EM_386: Half := 3
  const EM_MIPS: Half := 8
  const EM_MIPS_RS3_LE: Half := 10
  const EM_PPC: Half := 20
  const EM_PPC64: Half := 21
  const EM_SPARCV9: Half := 43
  const EM_IA_64: Half := 50
  const EM_X86_64: Half := 62

  const EI_MAG0: nat := 0
  const EI_MAG1: nat := 1
  const EI_MAG2: nat := 2
  const EI_MAG3: nat := 3
  const EI_CLASS: nat := 4
  const EI_DATA: nat := 5
  const EI_VERSION: nat := 6
  const EI_PAD: nat := 7
  const EI_NIDENT: nat := 16

  const ELFMAG0: Byte := 0x7f
  const ELFMAG1: Byte := 0x45  // 'E'
  const ELFMAG2: Byte := 0x4c  // 'L'
  const ELFMAG3: Byte := 0x46  // 'F'

  const ELFCLASSNONE: Byte := 0
  const ELFCLASS32: Byte := 1
  const ELFCLASS64: Byte := 2

  const ELFDATANONE: Byte := 0
  const ELFDATA2LSB: Byte := 1
  const ELFDATA2MSB: Byte := 2

  const SHT_NULL: Word := 0
  const SHT_PROGBITS: Word := 1
  const SHT_SYMTAB: Word := 2
  const SHT_STRTAB: Word := 3
  const SHT_RELA: Word := 4
  const SHT_HASH: Word := 5
  const SHT_DYNAMIC: Word := 6
  const SHT_NOTE: Word := 7
  const SHT_NOBITS: Word := 8
  const SHT_REL: Word := 9
  const SHT_SHLIB: Word := 10
  const SHT_DYNSYM: Word := 11
  const SHT_LOPROC: Word := 0x7000_0000
  const SHT_HIPROC: Word := 0x7fff_ffff
  const SHT_LOUSER: Word := 0x8000_0000
  const SHT_HIUSER: Word := 0xffff_ffff

  const SHF_WRITE: Word := 0x1
  const SHF_ALLOC: Word := 0x2
  const SHF_EXECINSTR: Word := 0x4
  const SHF_MASKPROC: Word := 0xf000_0000

  const STB_LOCAL: nat := 0
  const STB_GLOBAL: nat := 1
  const STB_WEAK: nat := 2
  const STB_LOPROC: nat := 13
  const STB_HIPROC: nat := 15

  const STT_NOTYPE: nat := 0
  const STT_OBJECT: nat := 1
  const STT_FUNC: nat := 2
  const STT_SECTION: nat := 3
  const STT_FILE: nat := 4
  const STT_LOPROC: nat := 13
  const STT_HIPROC: nat := 15

  const PT_NULL: Word := 0
  const PT_LOAD: Word := 1
  const PT_DYNAMIC: Word := 2
  const PT_INTERP: Word := 3
  const PT_NOTE: Word := 4
  const PT_SHLIB: Word := 5
  const PT_PHDR: Word := 6
  const PT_LOPROC: Word := 0x7000_0000
  const PT_HIPROC: Word := 0x7fff_ffff

  /* ---------------------------------------------------------------------- */
  /* Loader result codes                                                     */
  /* ---------------------------------------------------------------------- */

  /** What elf32_load reports: EE_OK and the four failures. */
  datatype LoadResult = Ok | Invalid | Memory | Incompatible | Unsupported

  /** EE_OK .. EE_UNSUPPORTED. */
  function ResultCode(r: LoadResult): (c: nat)
    ensures c < 5
    ensures c == 0 <==> r == Ok
  {
    match r
    case Ok => 0
    case Invalid => 1
    case Memory => 2
    case Incompatible => 3
    case Unsupported => 4
  }

  /** The result a code stands for. */
  function ResultOfCode(c: nat): (r: Option<LoadResult>)
    ensures r.Some? <==> c < 5
  {
    if c == 0 then Some(Ok)
    else if c == 1 then Some(Invalid)
    else if c == 2 then Some(Memory)
    else if c == 3 then Some(Incompatible)
    else if c == 4 then Some(Unsupported)
    else None
  }

  /** The codes are distinct: each names exactly one result. */
  lemma ResultCodesDistinct(r: LoadResult, c: nat)
    ensures ResultOfCode(ResultCode(r)) == Some(r)
    ensures c < 5 ==> ResultCode(ResultOfCode(c).value) == c
  {
  }

  /* ---------------------------------------------------------------------- */
  /* Byte order                                                              */
  /* ---------------------------------------------------------------------- */

  /** ELFDATA2LSB or ELFDATA2MSB. */
  datatype Encoding = Lsb | Msb

  /** The encoding the EI_DATA byte names, if any. */
  function EncodingOf(data: Byte): (r: Option<Encoding>)
    ensures r == Some(Lsb) <==> data == ELFDATA2LSB
    ensures r == Some(Msb) <==> data == ELFDATA2MSB
    ensures r.None? <==> data != ELFDATA2LSB && data != ELFDATA2MSB
  {
    if data == ELFDATA2LSB then Some(Lsb)
    else if data == ELFDATA2MSB then Some(Msb)
    else None
  }

  /** Peeling the lowest byte off `a + 256 * x`. */
  lemma Digit256(a: nat, x: nat)
    requires a < 0x100
    ensures (a + 0x100 * x) % 0x100 == a && (a + 0x100 * x) / 0x100 == x
  {
  }

  function DecodeHalf(b: seq<Byte>, enc: Encoding): Half
    requires |b| == 2
  {
    match enc
    case Lsb => b[0] as nat + 0x100 * b[1] as nat
    case Msb => b[1] as nat + 0x100 * b[0] as nat
  }

  function EncodeHalf(h: Half, enc: Encoding): (b: seq<Byte>)
    ensures |b| == 2
  {
    match enc
    case Lsb => [h % 0x100, h / 0x100]
    case Msb => [h / 0x100, h % 0x100]
  }

  /** The little-endian number of four bytes. */
  function LittleWord(b0: Byte, b1: Byte, b2: Byte, b3: Byte): Word {
    b0 as nat + 0x100 * (b1 as nat + 0x100 * (b2 as nat + 0x100 * b3 as nat))
  }

  function DecodeWord(b: seq<Byte>, enc: Encoding): Word
    requires |b| == 4
  {
    match enc
    case Lsb => LittleWord(b[0], b[1], b[2], b[3])
    case Msb => LittleWord(b[3], b[2], b[1], b[0])
  }

  /** The four bytes of a word, least significant first. */
  function LittleBytes(w: Word): (b: seq<Byte>)
    ensures |b| == 4
  {
    [w % 0x100, (w / 0x100) % 0x100, (w / 0x1_0000) % 0x100, w / 0x100_0000]
  }

  function EncodeWord(w: Word, enc: Encoding): (b: seq<Byte>)
    ensures |b| == 4
  {
    var l := LittleBytes(w);
    match enc
    case Lsb => l
    case Msb => [l[3], l[2], l[1], l[0]]
  }

  /** Encoding a half-word and decoding it in the same byte order gives it back. */
  lemma HalfRoundTrip(h: Half, enc: Encoding)
    ensures DecodeHalf(EncodeHalf(h, enc), enc) == h
  {
  }

  /** Decoding two bytes and encoding the half-word in the same byte order gives them back. */
  lemma HalfBytesRoundTrip(b: seq<Byte>, enc: Encoding)
    requires |b| == 2
    ensures EncodeHalf(DecodeHalf(b, enc), enc) == b
  {
    match enc
    case Lsb => Digit256(b[0], b[1]);
    case Msb => Digit256(b[1], b[0]);
  }

  /** The little-endian bytes of a word give the word back. */
  lemma LittleRoundTrip(w: Word)
    ensures var b := LittleBytes(w); LittleWord(b[0], b[1], b[2], b[3]) == w
  {
    var q1 := w / 0x100;
    var q2 := q1 / 0x100;
    var q3 := q2 / 0x100;
    assert w == w % 0x100 + 0x100 * q1;
    assert q1 == q1 % 0x100 + 0x100 * q2;
    assert q2 == q2 % 0x100 + 0x100 * q3;
    assert w / 0x1_0000 == q2 && w / 0x100_0000 == q3;
  }

  /** Encoding a word and decoding it in the same byte order gives it back. */
  lemma WordRoundTrip(w: Word, enc: Encoding)
    ensures DecodeWord(EncodeWord(w, enc), enc) == w
  {
    LittleRoundTrip(w);
  }

  /** Decoding four bytes and encoding the word in the same byte order gives them back. */
  lemma WordBytesRoundTrip(b: seq<Byte>, enc: Encoding)
    requires |b| == 4
    ensures EncodeWord(DecodeWord(b, enc), enc) == b
  {
    var l := if enc == Lsb then b else [b[3], b[2], b[1], b[0]];
    var w := LittleWord(l[0], l[1], l[2], l[3]);
    Digit256(l[0], l[1] as nat + 0x100 * (l[2] as nat + 0x100 * l[3] as nat));
    Digit256(l[1], l[2] as nat + 0x100 * l[3] as nat);
    Digit256(l[2], l[3]);
    assert w / 0x1_0000 == (w / 0x100) / 0x100;
    assert w / 0x100_0000 == ((w / 0x100) / 0x100) / 0x100;
    assert LittleBytes(w) == l;
  }

  /* ---------------------------------------------------------------------- */
  /* Identification                                                          */
  /* ---------------------------------------------------------------------- */

  /** e_ident: EI_NIDENT bytes. */
  type Ident = s: seq<Byte> | |s| == EI_NIDENT
    witness [0, 0, 0, 0, 0, 0, 0, 0, 0, 0, 0, 0, 0, 0, 0, 0]

  /** The four magic bytes 0x7f 'E' 'L' 'F' open the identification. */
  predicate HasMagic(ident: Ident) {
    && ident[EI_MAG0] == ELFMAG0 && ident[EI_MAG1] == ELFMAG1
    && ident[EI_MAG2] == ELFMAG2 && ident[EI_MAG3] == ELFMAG3
  }

  /**
   * An identification this header describes: the magic, the 32-bit class,
   * a known data encoding and the current version.
   */
  predicate IsElf32(ident: Ident) {
    && HasMagic(ident)
    && ident[EI_CLASS] == ELFCLASS32
    && EncodingOf(ident[EI_DATA]).Some?
    && ident[EI_VERSION] == EV_CURRENT
  }

  /** The identification of a 32-bit file in encoding `enc`, padded with zeros. */
  function MakeIdent(enc: Encoding): (r: Ident)
    ensures IsElf32(r) && EncodingOf(r[EI_DATA]) == Some(enc)
    ensures forall i :: EI_PAD <= i < EI_NIDENT ==> r[i] == 0
  {
    [ELFMAG0, ELFMAG1, ELFMAG2, ELFMAG3, ELFCLASS32,
     if enc == Lsb then ELFDATA2LSB else ELFDATA2MSB, EV_CURRENT,
     0, 0, 0, 0, 0, 0, 0, 0, 0]
  }

  /* ---------------------------------------------------------------------- */
  /* Records                                                                 */
  /* ---------------------------------------------------------------------- */

  /** elf32_header. */
  datatype Header = Header(
    ident: Ident, elfType: Half, machine: Half, version: Word, entry: Word,
    phoff: Word, shoff: Word, flags: Word, ehsize: Half, phentsize: Half,
    phnum: Half, shentsize: Half, shnum: Half, shstrndx: Half)

  /** elf32_section_header. */
  datatype SectionHeader = SectionHeader(
    name: Word, shType: Word, flags: Word, addr: Word, offset: Word,
    size: Word, link: Word, info: Word, addralign: Word, entsize: Word)

  /** elf32_symbol. */
  datatype Symbol = Symbol(name: Word, value: Word, size: Word, info: Byte,
                           other: Byte, shndx: Half)

  /** elf32_program_header. */
  datatype ProgramHeader = ProgramHeader(
    pType: Word, offset: Word, vaddr: Word, paddr: Word, filesz: Word,
    memsz: Word, flags: Word, align: Word)

  const HEADER_SIZE: nat := 52
  const SECTION_HEADER_SIZE: nat := 40
  const SYMBOL_SIZE: nat := 16
  const PROGRAM_HEADER_SIZE: nat := 32

  /** The bytes of an ELF header, its fields in declaration order. */
  function EncodeHeader(h: Header, enc: Encoding): (b: seq<Byte>)
    ensures |b| == HEADER_SIZE
  {
    h.ident
    + EncodeHalf(h.elfType, enc) + EncodeHalf(h.machine, enc)
    + EncodeWord(h.version, enc) + EncodeWord(h.entry, enc)
    + EncodeWord(h.phoff, enc) + EncodeWord(h.shoff, enc) + EncodeWord(h.flags, enc)
    + EncodeHalf(h.ehsize, enc) + EncodeHalf(h.phentsize, enc) + EncodeHalf(h.phnum, enc)
    + EncodeHalf(h.shentsize, enc) + EncodeHalf(h.shnum, enc) + EncodeHalf(h.shstrndx, enc)
  }

  /** An ELF header read from the start of `b`; `None` when `b` is too short. */
  function DecodeHeader(b: seq<Byte>, enc: Encoding): (r: Option<Header>)
    ensures r.Some? <==> |b| >= HEADER_SIZE
    ensures r.Some? ==> r.value.ident == b[..EI_NIDENT]
  {
    if |b| < HEADER_SIZE then None
    else Some(Header(
      b[..16],
      DecodeHalf(b[16..18], enc), DecodeHalf(b[18..20], enc),
      DecodeWord(b[20..24], enc), DecodeWord(b[24..28], enc),
      DecodeWord(b[28..32], enc), DecodeWord(b[32..36], enc), DecodeWord(b[36..40], enc),
      DecodeHalf(b[40..42], enc), DecodeHalf(b[42..44], enc), DecodeHalf(b[44..46], enc),
      DecodeHalf(b[46..48], enc), DecodeHalf(b[48..50], enc), DecodeHalf(b[50..52], enc)))
  }

  /** When `p + m` opens `b`, the bytes of `m` sit in `b` right after those of `p`. */
  lemma FieldAt(b: seq<Byte>, p: seq<Byte>, m: seq<Byte>)
    requires |p| + |m| <= |b| && b[..|p| + |m|] == p + m
    ensures b[..|p|] == p && b[|p|..|p| + |m|] == m
  {
    var n := |p| + |m|;
    assert b[..|p|] == b[..n][..|p|];
    assert b[|p|..n] == b[..n][|p|..];
  }

  /** Each field of an encoded header sits at its offset. */
  lemma HeaderFields(h: Header, enc: Encoding)
    ensures var b := EncodeHeader(h, enc); b[..16] == h.ident
    ensures var b := EncodeHeader(h, enc); b[16..18] == EncodeHalf(h.elfType, enc) && b[18..20] == EncodeHalf(h.machine, enc)
    ensures var b := EncodeHeader(h, enc); b[20..24] == EncodeWord(h.version, enc) && b[24..28] == EncodeWord(h.entry, enc)
    ensures var b := EncodeHeader(h, enc); b[28..32] == EncodeWord(h.phoff, enc) && b[32..36] == EncodeWord(h.shoff, enc)
    ensures var b := EncodeHeader(h, enc); b[36..40] == EncodeWord(h.flags, enc) && b[40..42] == EncodeHalf(h.ehsize, enc)
    ensures var b := EncodeHeader(h, enc); b[42..44] == EncodeHalf(h.phentsize, enc) && b[44..46] == EncodeHalf(h.phnum, enc)
    ensures var b := EncodeHeader(h, enc); b[46..48] == EncodeHalf(h.shentsize, enc) && b[48..50] == EncodeHalf(h.shnum, enc)
    ensures var b := EncodeHeader(h, enc); b[50..52] == EncodeHalf(h.shstrndx, enc)
  {
    var b := EncodeHeader(h, enc);
    var p0 := h.ident;
    var p1 := p0 + EncodeHalf(h.elfType, enc);
    var p2 := p1 + EncodeHalf(h.machine, enc);
    var p3 := p2 + EncodeWord(h.version, enc);
    var p4 := p3 + EncodeWord(h.entry, enc);
    var p5 := p4 + EncodeWord(h.phoff, enc);
    var p6 := p5 + EncodeWord(h.shoff, enc);
    var p7 := p6 + EncodeWord(h.flags, enc);
    var p8 := p7 + EncodeHalf(h.ehsize, enc);
    var p9 := p8 + EncodeHalf(h.phentsize, enc);
    var p10 := p9 + EncodeHalf(h.phnum, enc);
    var p11 := p10 + EncodeHalf(h.shentsize, enc);
    var p12 := p11 + EncodeHalf(h.shnum, enc);
    var p13 := p12 + EncodeHalf(h.shstrndx, enc);
    assert b == p13;
    FieldAt(b, p12, EncodeHalf(h.shstrndx, enc));
    FieldAt(b, p11, EncodeHalf(h.shnum, enc));
    FieldAt(b, p10, EncodeHalf(h.shentsize, enc));
    FieldAt(b, p9, EncodeHalf(h.phnum, enc));
    FieldAt(b, p8, EncodeHalf(h.phentsize, enc));
    FieldAt(b, p7, EncodeHalf(h.ehsize, enc));
    FieldAt(b, p6, EncodeWord(h.flags, enc));
    FieldAt(b, p5, EncodeWord(h.shoff, enc));
    FieldAt(b, p4, EncodeWord(h.phoff, enc));
    FieldAt(b, p3, EncodeWord(h.entry, enc));
    FieldAt(b, p2, EncodeWord(h.version, enc));
    FieldAt(b, p1, EncodeHalf(h.machine, enc));
    FieldAt(b, p0, EncodeHalf(h.elfType, enc));
  }

  /** Writing a header and reading it back in the same byte order gives it back. */
  lemma HeaderRoundTrip(h: Header, enc: Encoding)
    ensures DecodeHeader(EncodeHeader(h, enc), enc) == Some(h)
  {
    HeaderFields(h, enc);
    HalfRoundTrip(h.elfType, enc);
    HalfRoundTrip(h.machine, enc);
    WordRoundTrip(h.version, enc);
    WordRoundTrip(h.entry, enc);
    WordRoundTrip(h.phoff, enc);
    WordRoundTrip(h.shoff, enc);
    WordRoundTrip(h.flags, enc);
    HalfRoundTrip(h.ehsize, enc);
    HalfRoundTrip(h.phentsize, enc);
    HalfRoundTrip(h.phnum, enc);
    HalfRoundTrip(h.shentsize, enc);
    HalfRoundTrip(h.shnum, enc);
    HalfRoundTrip(h.shstrndx, enc);
  }

  /** The bytes of a program header: eight words in declaration order. */
  function EncodeProgramHeader(p: ProgramHeader, enc: Encoding): (b: seq<Byte>)
    ensures |b| == PROGRAM_HEADER_SIZE
  {
    EncodeWord(p.pType, enc) + EncodeWord(p.offset, enc)
    + EncodeWord(p.vaddr, enc) + EncodeWord(p.paddr, enc)
    + EncodeWord(p.filesz, enc) + EncodeWord(p.memsz, enc)
    + EncodeWord(p.flags, enc) + EncodeWord(p.align, enc)
  }

  /** A program header read from the start of `b`; `None` when `b` is too short. */
  function DecodeProgramHeader(b: seq<Byte>, enc: Encoding): (r: Option<ProgramHeader>)
    ensures r.Some? <==> |b| >= PROGRAM_HEADER_SIZE
  {
    if |b| < PROGRAM_HEADER_SIZE then None
    else Some(ProgramHeader(
      DecodeWord(b[0..4], enc), DecodeWord(b[4..8], enc),
      DecodeWord(b[8..12], enc), DecodeWord(b[12..16], enc),
      DecodeWord(b[16..20], enc), DecodeWord(b[20..24], enc),
      DecodeWord(b[24..28], enc), DecodeWord(b[28..32], enc)))
  }

  /** Writing a program header and reading it back gives it back. */
  lemma ProgramHeaderRoundTrip(p: ProgramHeader, enc: Encoding)
    ensures DecodeProgramHeader(EncodeProgramHeader(p, enc), enc) == Some(p)
  {
    var b := EncodeProgramHeader(p, enc);
    var p0 := EncodeWord(p.pType, enc);
    var p1 := p0 + EncodeWord(p.offset, enc);
    var p2 := p1 + EncodeWord(p.vaddr, enc);
    var p3 := p2 + EncodeWord(p.paddr, enc);
    var p4 := p3 + EncodeWord(p.filesz, enc);
    var p5 := p4 + EncodeWord(p.memsz, enc);
    var p6 := p5 + EncodeWord(p.flags, enc);
    var p7 := p6 + EncodeWord(p.align, enc);
    assert b == p7;
    FieldAt(b, p6, EncodeWord(p.align, enc));
    FieldAt(b, p5, EncodeWord(p.flags, enc));
    FieldAt(b, p4, EncodeWord(p.memsz, enc));
    FieldAt(b, p3, EncodeWord(p.filesz, enc));
    FieldAt(b, p2, EncodeWord(p.paddr, enc));
    FieldAt(b, p1, EncodeWord(p.vaddr, enc));
    FieldAt(b, p0, EncodeWord(p.offset, enc));
    assert b[0..4] == p0;
    WordRoundTrip(p.pType, enc);
    WordRoundTrip(p.offset, enc);
    WordRoundTrip(p.vaddr, enc);
    WordRoundTrip(p.paddr, enc);
    WordRoundTrip(p.filesz, enc);
    WordRoundTrip(p.memsz, enc);
    WordRoundTrip(p.flags, enc);
    WordRoundTrip(p.align, enc);
  }

  /** The bytes of a section header: ten words in declaration order. */
  function EncodeSectionHeader(s: SectionHeader, enc: Encoding): (b: seq<Byte>)
    ensures |b| == SECTION_HEADER_SIZE
  {
    EncodeWord(s.name, enc) + EncodeWord(s.shType, enc)
    + EncodeWord(s.flags, enc) + EncodeWord(s.addr, enc)
    + EncodeWord(s.offset, enc) + EncodeWord(s.size, enc)
    + EncodeWord(s.link, enc) + EncodeWord(s.info, enc)
    + EncodeWord(s.addralign, enc) + EncodeWord(s.entsize, enc)
  }

  /** A section header read from the start of `b`; `None` when `b` is too short. */
  function DecodeSectionHeader(b: seq<Byte>, enc: Encoding): (r: Option<SectionHeader>)
    ensures r.Some? <==> |b| >= SECTION_HEADER_SIZE
  {
    if |b| < SECTION_HEADER_SIZE then None
    else Some(SectionHeader(
      DecodeWord(b[0..4], enc), DecodeWord(b[4..8], enc),
      DecodeWord(b[8..12], enc), DecodeWord(b[12..16], enc),
      DecodeWord(b[16..20], enc), DecodeWord(b[20..24], enc),
      DecodeWord(b[24..28], enc), DecodeWord(b[28..32], enc),
      DecodeWord(b[32..36], enc), DecodeWord(b[36..40], enc)))
  }

  /** Writing a section header and reading it back gives it back. */
  lemma SectionHeaderRoundTrip(s: SectionHeader, enc: Encoding)
    ensures DecodeSectionHeader(EncodeSectionHeader(s, enc), enc) == Some(s)
  {
    var b := EncodeSectionHeader(s, enc);
    var p0 := EncodeWord(s.name, enc);
    var p1 := p0 + EncodeWord(s.shType, enc);
    var p2 := p1 + EncodeWord(s.flags, enc);
    var p3 := p2 + EncodeWord(s.addr, enc);
    var p4 := p3 + EncodeWord(s.offset, enc);
    var p5 := p4 + EncodeWord(s.size, enc);
    var p6 := p5 + EncodeWord(s.link, enc);
    var p7 := p6 + EncodeWord(s.info, enc);
    var p8 := p7 + EncodeWord(s.addralign, enc);
    var p9 := p8 + EncodeWord(s.entsize, enc);
    assert b == p9;
    FieldAt(b, p8, EncodeWord(s.entsize, enc));
    FieldAt(b, p7, EncodeWord(s.addralign, enc));
    FieldAt(b, p6, EncodeWord(s.info, enc));
    FieldAt(b, p5, EncodeWord(s.link, enc));
    FieldAt(b, p4, EncodeWord(s.size, enc));
    FieldAt(b, p3, EncodeWord(s.offset, enc));
    FieldAt(b, p2, EncodeWord(s.addr, enc));
    FieldAt(b, p1, EncodeWord(s.flags, enc));
    FieldAt(b, p0, EncodeWord(s.shType, enc));
    assert b[0..4] == p0;
    WordRoundTrip(s.name, enc);
    WordRoundTrip(s.shType, enc);
    WordRoundTrip(s.flags, enc);
    WordRoundTrip(s.addr, enc);
    WordRoundTrip(s.offset, enc);
    WordRoundTrip(s.size, enc);
    WordRoundTrip(s.link, enc);
    WordRoundTrip(s.info, enc);
    WordRoundTrip(s.addralign, enc);
    WordRoundTrip(s.entsize, enc);
  }

  /** The bytes of a symbol table entry. */
  function EncodeSymbol(s: Symbol, enc: Encoding): (b: seq<Byte>)
    ensures |b| == SYMBOL_SIZE
  {
    EncodeWord(s.name, enc) + EncodeWord(s.value, enc) + EncodeWord(s.size, enc)
    + [s.info, s.other] + EncodeHalf(s.shndx, enc)
  }

  /** A symbol table entry read from the start of `b`; `None` when `b` is too short. */
  function DecodeSymbol(b: seq<Byte>, enc: Encoding): (r: Option<Symbol>)
    ensures r.Some? <==> |b| >= SYMBOL_SIZE
  {
    if |b| < SYMBOL_SIZE then None
    else Some(Symbol(
      DecodeWord(b[0..4], enc), DecodeWord(b[4..8], enc), DecodeWord(b[8..12], enc),
      b[12], b[13], DecodeHalf(b[14..16], enc)))
  }

  /** Writing a symbol and reading it back gives it back. */
  lemma SymbolRoundTrip(s: Symbol, enc: Encoding)
    ensures DecodeSymbol(EncodeSymbol(s, enc), enc) == Some(s)
  {
    var b := EncodeSymbol(s, enc);
    var p0 := EncodeWord(s.name, enc);
    var p1 := p0 + EncodeWord(s.value, enc);
    var p2 := p1 + EncodeWord(s.size, enc);
    var p3 := p2 + [s.info, s.other];
    var p4 := p3 + EncodeHalf(s.shndx, enc);
    assert b == p4;
    FieldAt(b, p3, EncodeHalf(s.shndx, enc));
    FieldAt(b, p2, [s.info, s.other]);
    FieldAt(b, p1, EncodeWord(s.size, enc));
    FieldAt(b, p0, EncodeWord(s.value, enc));
    assert b[0..4] == p0;
    assert b[12] == b[12..14][0] && b[13] == b[12..14][1];
    WordRoundTrip(s.name, enc);
    WordRoundTrip(s.value, enc);
    WordRoundTrip(s.size, enc);
    HalfRoundTrip(s.shndx, enc);
  }

  /** The program header table: `phnum` entries of `phentsize` bytes from `phoff`, if all lie inside `b`. */
  function ProgramHeaderAt(b: seq<Byte>, h: Header, enc: Encoding, i: nat): (r: Option<ProgramHeader>)
    requires h.phentsize >= PROGRAM_HEADER_SIZE
    ensures r.Some? <==> i < h.phnum && h.phoff + (i + 1) * h.phentsize <= |b|
  {
    if i < h.phnum && h.phoff + (i + 1) * h.phentsize <= |b| then
      var start := h.phoff + i * h.phentsize;
      DecodeProgramHeader(b[start..start + h.phentsize], enc)
    else None
  }
}
