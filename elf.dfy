/** The minimal ELF64 definitions the loader reads: identification magic,
    the PT_LOAD segment type, and the Elf64_Ehdr and Elf64_Phdr layouts of
    the System V ELF-64 object file format, decoded little-endian at their
    fixed offsets. */
module Elf {
  import opened Words

  const EI_NIDENT: nat := 16
  const EI_MAG0: nat := 0
  const EI_MAG1: nat := 1
  const EI_MAG2: nat := 2
  const EI_MAG3: nat := 3
  const ELFMAG0: byte := 0x7F
  const ELFMAG1: byte := 0x45  // 'E'
  const ELFMAG2: byte := 0x4C  // 'L'
  const ELFMAG3: byte := 0x46  // 'F'

  /** The only segment type the loader acts on. */
  const PT_LOAD: u32 := 1

  /** sizeof(Elf64_Ehdr) and sizeof(Elf64_Phdr). */
  const EHDR_SIZE: nat := 64
  const PHDR_SIZE: nat := 56

  // Byte offsets of the Elf64_Ehdr fields.
  const E_TYPE: nat := 16
  const E_MACHINE: nat := 18
  const E_VERSION: nat := 20
  const E_ENTRY: nat := 24
  const E_PHOFF: nat := 32
  const E_SHOFF: nat := 40
  const E_FLAGS: nat := 48
  const E_EHSIZE: nat := 52
  const E_PHENTSIZE: nat := 54
  const E_PHNUM: nat := 56
  const E_SHENTSIZE: nat := 58
  const E_SHNUM: nat := 60
  const E_SHSTRNDX: nat := 62

  // Byte offsets of the Elf64_Phdr fields.
  const P_TYPE: nat := 0
  const P_FLAGS: nat := 4
  const P_OFFSET: nat := 8
  const P_VADDR: nat := 16
  const P_PADDR: nat := 24
  const P_FILESZ: nat := 32
  const P_MEMSZ: nat := 40
  const P_ALIGN: nat := 48

  type Ident = s: seq<byte> | |s| == EI_NIDENT
    witness seq(16, _ => 0)

  datatype Ehdr = Ehdr(
    ident: Ident,
    etype: u16,
    machine: u16,
    version: u32,
    entry: u64,
    phoff: u64,
    shoff: u64,
    flags: u32,
    ehsize: u16,
    phentsize: u16,
    phnum: u16,
    shentsize: u16,
    shnum: u16,
    shstrndx: u16)

  datatype Phdr = Phdr(
    ptype: u32,
    flags: u32,
    offset: u64,
    vaddr: u64,
    paddr: u64,
    filesz: u64,
    memsz: u64,
    align: u64)

  function U16At(b: seq<byte>, off: nat): (v: u16)
    requires off + 2 <= |b|
    ensures v == LE(b[off..off + 2])
  {
    Pow256Widths(); LE(b[off..off + 2])
  }

  function U32At(b: seq<byte>, off: nat): (v: u32)
    requires off + 4 <= |b|
    ensures v == LE(b[off..off + 4])
  {
    Pow256Widths(); LE(b[off..off + 4])
  }

  function U64At(b: seq<byte>, off: nat): (v: u64)
    requires off + 8 <= |b|
    ensures v == LE(b[off..off + 8])
  {
    Pow256Widths(); LE(b[off..off + 8])
  }

  /** The 4-byte identification check: e_ident[EI_MAG0..EI_MAG3]. */
  predicate HasMagic(b: seq<byte>)
    requires |b| >= 4
  {
    b[EI_MAG0] == ELFMAG0 && b[EI_MAG1] == ELFMAG1 &&
    b[EI_MAG2] == ELFMAG2 && b[EI_MAG3] == ELFMAG3
  }

  /** Reads the file header at the start of an image. */
  function DecodeEhdr(b: seq<byte>): Ehdr
    requires |b| >= EHDR_SIZE
  {
    Ehdr(b[..EI_NIDENT],
         U16At(b, E_TYPE), U16At(b, E_MACHINE), U32At(b, E_VERSION),
         U64At(b, E_ENTRY), U64At(b, E_PHOFF), U64At(b, E_SHOFF),
         U32At(b, E_FLAGS), U16At(b, E_EHSIZE), U16At(b, E_PHENTSIZE),
         U16At(b, E_PHNUM), U16At(b, E_SHENTSIZE), U16At(b, E_SHNUM),
         U16At(b, E_SHSTRNDX))
  }

  /** Reads one program header from the start of b. */
  function DecodePhdr(b: seq<byte>): Phdr
    requires |b| >= PHDR_SIZE
  {
    Phdr(U32At(b, P_TYPE), U32At(b, P_FLAGS), U64At(b, P_OFFSET),
         U64At(b, P_VADDR), U64At(b, P_PADDR), U64At(b, P_FILESZ),
         U64At(b, P_MEMSZ), U64At(b, P_ALIGN))
  }

  /** The file header laid out as the C struct: fields in declaration order, no padding. */
  function EncodeEhdr(h: Ehdr): (b: seq<byte>)
    ensures |b| == EHDR_SIZE
  {
    Pow256Widths();
    h.ident + ToLE(h.etype, 2) + ToLE(h.machine, 2) + ToLE(h.version, 4) +
    ToLE(h.entry, 8) + ToLE(h.phoff, 8) + ToLE(h.shoff, 8) + ToLE(h.flags, 4) +
    ToLE(h.ehsize, 2) + ToLE(h.phentsize, 2) + ToLE(h.phnum, 2) +
    ToLE(h.shentsize, 2) + ToLE(h.shnum, 2) + ToLE(h.shstrndx, 2)
  }

  /** The program header laid out as the C struct. */
  function EncodePhdr(p: Phdr): (b: seq<byte>)
    ensures |b| == PHDR_SIZE
  {
    Pow256Widths();
    ToLE(p.ptype, 4) + ToLE(p.flags, 4) + ToLE(p.offset, 8) + ToLE(p.vaddr, 8) +
    ToLE(p.paddr, 8) + ToLE(p.filesz, 8) + ToLE(p.memsz, 8) + ToLE(p.align, 8)
  }

  /** The field offsets used by DecodeEhdr are those of the struct declaration:
      reading back a laid-out header gives every field back. */
  lemma DecodeEncodeEhdr(h: Ehdr)
    ensures DecodeEhdr(EncodeEhdr(h)) == h
  {
    Pow256Widths();
    var b := EncodeEhdr(h);
    // The layout, one field at a time: p_k is the prefix up to field k.
    var p1 := h.ident + ToLE(h.etype, 2);
    var p2 := p1 + ToLE(h.machine, 2);
    var p3 := p2 + ToLE(h.version, 4);
    var p4 := p3 + ToLE(h.entry, 8);
    var p5 := p4 + ToLE(h.phoff, 8);
    var p6 := p5 + ToLE(h.shoff, 8);
    var p7 := p6 + ToLE(h.flags, 4);
    var p8 := p7 + ToLE(h.ehsize, 2);
    var p9 := p8 + ToLE(h.phentsize, 2);
    var p10 := p9 + ToLE(h.phnum, 2);
    var p11 := p10 + ToLE(h.shentsize, 2);
    var p12 := p11 + ToLE(h.shnum, 2);
    assert b[..|b|] == p12 + ToLE(h.shstrndx, 2);
    Peel(b, p12, ToLE(h.shstrndx, 2));
    Peel(b, p11, ToLE(h.shnum, 2));
    Peel(b, p10, ToLE(h.shentsize, 2));
    Peel(b, p9, ToLE(h.phnum, 2));
    Peel(b, p8, ToLE(h.phentsize, 2));
    Peel(b, p7, ToLE(h.ehsize, 2));
    Peel(b, p6, ToLE(h.flags, 4));
    Peel(b, p5, ToLE(h.shoff, 8));
    Peel(b, p4, ToLE(h.phoff, 8));
    Peel(b, p3, ToLE(h.entry, 8));
    Peel(b, p2, ToLE(h.version, 4));
    Peel(b, p1, ToLE(h.machine, 2));
    Peel(b, h.ident, ToLE(h.etype, 2));
    LEOfToLE(h.etype, 2); LEOfToLE(h.machine, 2); LEOfToLE(h.version, 4);
    LEOfToLE(h.entry, 8); LEOfToLE(h.phoff, 8); LEOfToLE(h.shoff, 8);
    LEOfToLE(h.flags, 4); LEOfToLE(h.ehsize, 2); LEOfToLE(h.phentsize, 2);
    LEOfToLE(h.phnum, 2); LEOfToLE(h.shentsize, 2); LEOfToLE(h.shnum, 2);
    LEOfToLE(h.shstrndx, 2);
  }

  /** The fields cover all 64 header bytes without gaps: every 64-byte string
      is the layout of the header decoded from it. */
  lemma EncodeDecodeEhdr(b: seq<byte>)
    requires |b| == EHDR_SIZE
    ensures EncodeEhdr(DecodeEhdr(b)) == b
  {
    Pow256Widths();
    ToLEOfLE(b[E_TYPE..E_TYPE + 2]); ToLEOfLE(b[E_MACHINE..E_MACHINE + 2]);
    ToLEOfLE(b[E_VERSION..E_VERSION + 4]); ToLEOfLE(b[E_ENTRY..E_ENTRY + 8]);
    ToLEOfLE(b[E_PHOFF..E_PHOFF + 8]); ToLEOfLE(b[E_SHOFF..E_SHOFF + 8]);
    ToLEOfLE(b[E_FLAGS..E_FLAGS + 4]); ToLEOfLE(b[E_EHSIZE..E_EHSIZE + 2]);
    ToLEOfLE(b[E_PHENTSIZE..E_PHENTSIZE + 2]); ToLEOfLE(b[E_PHNUM..E_PHNUM + 2]);
    ToLEOfLE(b[E_SHENTSIZE..E_SHENTSIZE + 2]); ToLEOfLE(b[E_SHNUM..E_SHNUM + 2]);
    ToLEOfLE(b[E_SHSTRNDX..E_SHSTRNDX + 2]);
    assert b[..16] == b[0..16];
    Join(b, 0, 16, 18);
    Join(b, 0, 18, 20);
    Join(b, 0, 20, 24);
    Join(b, 0, 24, 32);
    Join(b, 0, 32, 40);
    Join(b, 0, 40, 48);
    Join(b, 0, 48, 52);
    Join(b, 0, 52, 54);
    Join(b, 0, 54, 56);
    Join(b, 0, 56, 58);
    Join(b, 0, 58, 60);
    Join(b, 0, 60, 62);
    Join(b, 0, 62, 64);
    assert b == b[0..64];
  }

  lemma DecodeEncodePhdr(p: Phdr)
    ensures DecodePhdr(EncodePhdr(p)) == p
  {
    Pow256Widths();
    var b := EncodePhdr(p);
    var p1 := ToLE(p.ptype, 4) + ToLE(p.flags, 4);
    var p2 := p1 + ToLE(p.offset, 8);
    var p3 := p2 + ToLE(p.vaddr, 8);
    var p4 := p3 + ToLE(p.paddr, 8);
    var p5 := p4 + ToLE(p.filesz, 8);
    var p6 := p5 + ToLE(p.memsz, 8);
    assert b[..|b|] == p6 + ToLE(p.align, 8);
    Peel(b, p6, ToLE(p.align, 8));
    Peel(b, p5, ToLE(p.memsz, 8));
    Peel(b, p4, ToLE(p.filesz, 8));
    Peel(b, p3, ToLE(p.paddr, 8));
    Peel(b, p2, ToLE(p.vaddr, 8));
    Peel(b, p1, ToLE(p.offset, 8));
    Peel(b, ToLE(p.ptype, 4), ToLE(p.flags, 4));
    Peel(b, [], ToLE(p.ptype, 4));
    LEOfToLE(p.ptype, 4); LEOfToLE(p.flags, 4); LEOfToLE(p.offset, 8);
    LEOfToLE(p.vaddr, 8); LEOfToLE(p.paddr, 8); LEOfToLE(p.filesz, 8);
    LEOfToLE(p.memsz, 8); LEOfToLE(p.align, 8);
  }

  lemma EncodeDecodePhdr(b: seq<byte>)
    requires |b| == PHDR_SIZE
    ensures EncodePhdr(DecodePhdr(b)) == b
  {
    Pow256Widths();
    ToLEOfLE(b[P_TYPE..P_TYPE + 4]); ToLEOfLE(b[P_FLAGS..P_FLAGS + 4]);
    ToLEOfLE(b[P_OFFSET..P_OFFSET + 8]); ToLEOfLE(b[P_VADDR..P_VADDR + 8]);
    ToLEOfLE(b[P_PADDR..P_PADDR + 8]); ToLEOfLE(b[P_FILESZ..P_FILESZ + 8]);
    ToLEOfLE(b[P_MEMSZ..P_MEMSZ + 8]); ToLEOfLE(b[P_ALIGN..P_ALIGN + 8]);
    Join(b, 0, 4, 8);
    Join(b, 0, 8, 16);
    Join(b, 0, 16, 24);
    Join(b, 0, 24, 32);
    Join(b, 0, 32, 40);
    Join(b, 0, 40, 48);
    Join(b, 0, 48, 56);
    assert b == b[0..56];
  }

  /** The magic check looks exactly at the first four identification bytes. */
  lemma MagicIsIdentPrefix(b: seq<byte>)
    requires |b| >= EHDR_SIZE
    ensures HasMagic(b) <==> DecodeEhdr(b).ident[..4] == [ELFMAG0, ELFMAG1, ELFMAG2, ELFMAG3]
  {
    var id := DecodeEhdr(b).ident;
    if HasMagic(b) {
      assert id[..4] == [ELFMAG0, ELFMAG1, ELFMAG2, ELFMAG3];
    }
    if id[..4] == [ELFMAG0, ELFMAG1, ELFMAG2, ELFMAG3] {
      assert id[..4][0] == b[0] && id[..4][1] == b[1] && id[..4][2] == b[2] && id[..4][3] == b[3];
    }
  }

  /** A laid-out header passes the magic check exactly when its identification does. */
  lemma EncodedMagic(h: Ehdr)
    ensures HasMagic(EncodeEhdr(h)) <==>
            (h.ident[0] == ELFMAG0 && h.ident[1] == ELFMAG1 && h.ident[2] == ELFMAG2 && h.ident[3] == ELFMAG3)
  {
    assert EncodeEhdr(h)[..16] == h.ident;
  }
}
