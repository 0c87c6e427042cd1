/** The fixed-size records of the System V ABI, chapter 4 "Object Files",
    in both word classes: the ELF header, section headers, symbols,
    relocations and program headers. Each record is a sequence of unsigned
    fields of fixed widths, packed without padding, as encoding/binary reads
    a Go struct of the debug/elf package. */
module Layout {
  import opened Bytes

  /** EI_CLASS: ELFCLASS32 or ELFCLASS64. */
  datatype Class = Class32 | Class64

  function Sum(ws: seq<nat>): nat
  {
    if ws == [] then 0 else ws[0] + Sum(ws[1..])
  }

  /** The values of consecutive fields of widths ws at the start of b. */
  function DecodeFields(o: ByteOrder, b: seq<byte>, ws: seq<nat>): (vs: seq<nat>)
    requires Sum(ws) <= |b|
    ensures |vs| == |ws|
  {
    if ws == [] then [] else [UInt(o, b[..ws[0]])] + DecodeFields(o, b[ws[0]..], ws[1..])
  }

  /** Every decoded field fits its width. */
  lemma {:induction false} DecodeFieldsFit(o: ByteOrder, b: seq<byte>, ws: seq<nat>)
    requires Sum(ws) <= |b|
    ensures FitWidths(DecodeFields(o, b, ws), ws)
  {
    if ws != [] {
      var vs := DecodeFields(o, b, ws);
      UIntBound(o, b[..ws[0]]);
      DecodeFieldsFit(o, b[ws[0]..], ws[1..]);
      forall i | 0 < i < |ws| ensures vs[i] < Pow256(ws[i]) {
        assert vs[i] == vs[1..][i - 1] && ws[i] == ws[1..][i - 1];
      }
    }
  }

  /** The bytes of the fields vs, of widths ws, laid out one after the other. */
  function EncodeFields(o: ByteOrder, vs: seq<nat>, ws: seq<nat>): (b: seq<byte>)
    requires |vs| == |ws|
    ensures |b| == Sum(ws)
  {
    if ws == [] then [] else EncUInt(o, vs[0], ws[0]) + EncodeFields(o, vs[1..], ws[1..])
  }

  predicate FitWidths(vs: seq<nat>, ws: seq<nat>)
  {
    |vs| == |ws| && forall i :: 0 <= i < |ws| ==> vs[i] < Pow256(ws[i])
  }

  lemma {:induction false} DecodeEncodeFields(o: ByteOrder, vs: seq<nat>, ws: seq<nat>)
    requires FitWidths(vs, ws)
    ensures DecodeFields(o, EncodeFields(o, vs, ws), ws) == vs
  {
    if ws != [] {
      var b := EncodeFields(o, vs, ws);
      var head := EncUInt(o, vs[0], ws[0]);
      assert b[..ws[0]] == head;
      assert b[ws[0]..] == EncodeFields(o, vs[1..], ws[1..]);
      DecodeEncode(o, vs[0], ws[0]);
      assert FitWidths(vs[1..], ws[1..]) by {
        forall i | 0 <= i < |ws| - 1 ensures vs[1..][i] < Pow256(ws[1..][i]) {
          assert vs[1..][i] == vs[i + 1] && ws[1..][i] == ws[i + 1];
        }
      }
      DecodeEncodeFields(o, vs[1..], ws[1..]);
    }
  }

  lemma {:induction false} EncodeDecodeFields(o: ByteOrder, b: seq<byte>, ws: seq<nat>)
    requires |b| == Sum(ws)
    ensures EncodeFields(o, DecodeFields(o, b, ws), ws) == b
  {
    if ws != [] {
      var w, head, tail := ws[0], b[..ws[0]], b[ws[0]..];
      assert Sum(ws) == w + Sum(ws[1..]);
      assert |head| == w && |tail| == Sum(ws[1..]);
      var rest := DecodeFields(o, tail, ws[1..]);
      var vs := DecodeFields(o, b, ws);
      assert vs[0] == UInt(o, head) && vs[1..] == rest by {
        assert vs == [UInt(o, head)] + rest;
      }
      assert EncUInt(o, vs[0], w) == head by {
        EncodeDecode(o, head);
      }
      assert EncodeFields(o, vs[1..], ws[1..]) == tail by {
        EncodeDecodeFields(o, tail, ws[1..]);
      }
      assert head + tail == b;
    }
  }

  // Widths shared by both classes.

  /** Width of an address, offset or Xword field: Elf32_Addr/Off are 4 bytes, Elf64 ones 8. */
  function Word(c: Class): nat
  {
    if c == Class32 then 4 else 8
  }

  // ---------------------------------------------------------------- ELF header

  /** Elf32_Ehdr and Elf64_Ehdr, with the address and offset fields widened to 64 bits. */
  datatype Header = Header(
    ident: seq<byte>, eType: u16, machine: u16, version: u32, entry: u64,
    phoff: u64, shoff: u64, flags: u32, ehsize: u16, phentsize: u16,
    phnum: u16, shentsize: u16, shnum: u16, shstrndx: u16)

  /** EI_NIDENT: the identification bytes that open every ELF header. */
  const IDENT_SIZE: nat := 16

  /** The fields after e_ident: e_type, e_machine, e_version, e_entry,
      e_phoff, e_shoff, e_flags, e_ehsize, e_phentsize, e_phnum, e_shentsize,
      e_shnum, e_shstrndx. */
  function HeaderLayout(c: Class): seq<nat>
  {
    if c == Class32 then [2, 2, 4, 4, 4, 4, 4, 2, 2, 2, 2, 2, 2]
    else [2, 2, 4, 8, 8, 8, 4, 2, 2, 2, 2, 2, 2]
  }

  /** Elf32_Ehdr is 52 bytes, Elf64_Ehdr 64. */
  function HeaderSize(c: Class): nat
  {
    if c == Class32 then 52 else 64
  }

  lemma HeaderLayoutSize(c: Class)
    ensures IDENT_SIZE + Sum(HeaderLayout(c)) == HeaderSize(c)
  {
    if c == Class32 {
      assert Sum([2, 2, 4, 4, 4, 4, 4, 2, 2, 2, 2, 2, 2]) == 36;
    } else {
      assert Sum([2, 2, 4, 8, 8, 8, 4, 2, 2, 2, 2, 2, 2]) == 48;
    }
  }

  function HeaderOf(c: Class, ident: seq<byte>, f: seq<nat>): Header
    requires FitWidths(f, HeaderLayout(c))
  {
    Pow256Widths();
    Header(ident, f[0], f[1], f[2], f[3], f[4], f[5], f[6], f[7], f[8], f[9], f[10], f[11], f[12])
  }

  function HeaderFields(h: Header): seq<nat>
  {
    [h.eType, h.machine, h.version, h.entry, h.phoff, h.shoff, h.flags,
     h.ehsize, h.phentsize, h.phnum, h.shentsize, h.shnum, h.shstrndx]
  }

  /** The header stored at the start of b. */
  function DecodeHeader(c: Class, o: ByteOrder, b: seq<byte>): (h: Header)
    requires |b| >= HeaderSize(c)
    ensures h.ident == b[..IDENT_SIZE]
  {
    HeaderLayoutSize(c);
    DecodeFieldsFit(o, b[IDENT_SIZE..], HeaderLayout(c));
    HeaderOf(c, b[..IDENT_SIZE], DecodeFields(o, b[IDENT_SIZE..], HeaderLayout(c)))
  }

  function EncodeHeader(c: Class, o: ByteOrder, h: Header): (b: seq<byte>)
    requires |h.ident| == IDENT_SIZE
    ensures |b| == HeaderSize(c)
  {
    HeaderLayoutSize(c);
    h.ident + EncodeFields(o, HeaderFields(h), HeaderLayout(c))
  }

  /** A header whose every field fits the width its class gives it. */
  predicate HeaderFits(c: Class, h: Header)
  {
    |h.ident| == IDENT_SIZE && FitWidths(HeaderFields(h), HeaderLayout(c))
  }

  /** Decoding an encoded header gives the header back. */
  lemma HeaderDecodeEncode(c: Class, o: ByteOrder, h: Header)
    requires HeaderFits(c, h)
    ensures DecodeHeader(c, o, EncodeHeader(c, o, h)) == h
  {
    HeaderLayoutSize(c);
    var b := EncodeHeader(c, o, h);
    var f := HeaderFields(h);
    assert b[..IDENT_SIZE] == h.ident;
    assert DecodeFields(o, b[IDENT_SIZE..], HeaderLayout(c)) == f by {
      assert b[IDENT_SIZE..] == EncodeFields(o, f, HeaderLayout(c));
      DecodeEncodeFields(o, f, HeaderLayout(c));
    }
    assert HeaderOf(c, h.ident, f) == h;
  }

  /** The fields of a header built from f are f. */
  lemma HeaderFieldsOf(c: Class, ident: seq<byte>, f: seq<nat>)
    requires FitWidths(f, HeaderLayout(c))
    ensures HeaderFields(HeaderOf(c, ident, f)) == f
  {
  }

  /** Re-encoding the decoded fixed fields of a header gives its bytes back. */
  lemma HeaderEncodeDecode(c: Class, o: ByteOrder, b: seq<byte>)
    requires |b| == HeaderSize(c)
    ensures EncodeHeader(c, o, DecodeHeader(c, o, b)) == b
  {
    HeaderLayoutSize(c);
    var ident, rest := b[..IDENT_SIZE], b[IDENT_SIZE..];
    var f := DecodeFields(o, rest, HeaderLayout(c));
    DecodeFieldsFit(o, rest, HeaderLayout(c));
    var h := DecodeHeader(c, o, b);
    assert h == HeaderOf(c, ident, f);
    assert HeaderFields(h) == f by {
      HeaderFieldsOf(c, ident, f);
    }
    assert EncodeFields(o, f, HeaderLayout(c)) == rest by {
      EncodeDecodeFields(o, rest, HeaderLayout(c));
    }
    assert b == ident + rest;
  }

  // -------------------------------------------------------------- fixed fields

  /** The unsigned field of w bytes at offset at of b in byte order o: the
      first of its bytes is the least significant in a little-endian field,
      the last in a big-endian one. */
  function Field(o: ByteOrder, b: seq<byte>, at: nat, w: nat): (v: nat)
    requires at + w <= |b|
    ensures v < Pow256(w)
  {
    var s := b[at .. at + w];
    match o
    case LittleEndian => LeBound(s); Le(s)
    case BigEndian => BeBound(s); Be(s)
  }

  /** A field is the unsigned integer its w bytes hold. */
  lemma FieldIsUInt(o: ByteOrder, b: seq<byte>, at: nat, w: nat)
    requires at + w <= |b|
    ensures Field(o, b, at, w) == UInt(o, b[at .. at + w])
  {
    BeIsReversedLe(b[at .. at + w]);
  }

  /** An Elf_Word field, and every address or offset of a 32-bit record. */
  function Field32(o: ByteOrder, b: seq<byte>, at: nat): u32
    requires at + 4 <= |b|
  {
    Pow256Widths();
    Field(o, b, at, 4)
  }

  /** An address, offset or Xword field of a 64-bit record. */
  function Field64(o: ByteOrder, b: seq<byte>, at: nat): u64
    requires at + 8 <= |b|
  {
    Pow256Widths();
    Field(o, b, at, 8)
  }

  // ----------------------------------------------------------- section header

  /** Elf32_Shdr and Elf64_Shdr: sh_name, sh_type, sh_flags, sh_addr, sh_offset,
      sh_size, sh_link, sh_info, sh_addralign, sh_entsize. */
  datatype SectionHeader = SectionHeader(
    name: u32, shType: u32, flags: u64, addr: u64, off: u64, size: u64,
    link: u32, info: u32, addralign: u64, entsize: u64)

  /** Native record sizes: Section32 is 40 bytes, Section64 is 64. */
  function SectionSize(c: Class): nat
  {
    if c == Class32 then 40 else 64
  }

  /** The widths of sh_name .. sh_entsize in file order: ten 4-byte fields
      in a Section32; in a Section64 sh_flags, sh_addr, sh_offset, sh_size,
      sh_addralign and sh_entsize take 8 bytes, so the fields start at
      0, 4, 8, 16, 24, 32, 40, 44, 48 and 56. */
  function SectionLayout(c: Class): (ws: seq<nat>)
    ensures Sum(ws) == SectionSize(c)
  {
    if c == Class32 then [4, 4, 4, 4, 4, 4, 4, 4, 4, 4] else [4, 4, 8, 8, 8, 8, 4, 4, 8, 8]
  }

  function SectionOf(c: Class, f: seq<nat>): SectionHeader
    requires FitWidths(f, SectionLayout(c))
  {
    Pow256Widths();
    SectionHeader(f[0], f[1], f[2], f[3], f[4], f[5], f[6], f[7], f[8], f[9])
  }

  function SectionFields(s: SectionHeader): seq<nat>
  {
    [s.name, s.shType, s.flags, s.addr, s.off, s.size, s.link, s.info, s.addralign, s.entsize]
  }

  /** The section header stored at the start of b. */
  function DecodeSection(c: Class, o: ByteOrder, b: seq<byte>): SectionHeader
    requires |b| >= SectionSize(c)
  {
    DecodeFieldsFit(o, b, SectionLayout(c));
    SectionOf(c, DecodeFields(o, b, SectionLayout(c)))
  }

  function EncodeSection(c: Class, o: ByteOrder, s: SectionHeader): (b: seq<byte>)
    ensures |b| == SectionSize(c)
  {
    EncodeFields(o, SectionFields(s), SectionLayout(c))
  }

  /** A section header whose every field fits the width its class gives it. */
  predicate SectionFits(c: Class, s: SectionHeader)
  {
    FitWidths(SectionFields(s), SectionLayout(c))
  }

  /** Decoding an encoded section header gives it back. */
  lemma SectionDecodeEncode(c: Class, o: ByteOrder, s: SectionHeader)
    requires SectionFits(c, s)
    ensures DecodeSection(c, o, EncodeSection(c, o, s)) == s
  {
    DecodeEncodeFields(o, SectionFields(s), SectionLayout(c));
  }

  /** A decoded section header fits its class, and encoding it gives its
      bytes back. */
  lemma SectionEncodeDecode(c: Class, o: ByteOrder, b: seq<byte>)
    requires |b| == SectionSize(c)
    ensures SectionFits(c, DecodeSection(c, o, b))
    ensures EncodeSection(c, o, DecodeSection(c, o, b)) == b
  {
    var f := DecodeFields(o, b, SectionLayout(c));
    DecodeFieldsFit(o, b, SectionLayout(c));
    assert SectionFields(SectionOf(c, f)) == f;
    EncodeDecodeFields(o, b, SectionLayout(c));
  }

  // ------------------------------------------------------------------- symbol

  /** Elf32_Sym and Elf64_Sym: st_name, st_value, st_size, st_info, st_other, st_shndx. */
  datatype Symbol = Symbol(name: u32, value: u64, size: u64, info: u8, other: u8, shndx: u16)

  /** Native record sizes: Sym32 is 16 bytes, Sym64 is 24. */
  function SymbolSize(c: Class): nat
  {
    if c == Class32 then 16 else 24
  }

  /** Where symbol k starts in its table: k records of SymbolSize(c) bytes. */
  function SymbolOffset(c: Class, k: nat): nat
  {
    if c == Class32 then 16 * k else 24 * k
  }

  /** The field widths in file order. Elf32_Sym keeps st_name, st_value,
      st_size, st_info, st_other, st_shndx at 0, 4, 8, 12, 13, 14; Elf64_Sym
      moves st_info, st_other, st_shndx to 4, 5, 6, before an 8-byte
      st_value and st_size at 8 and 16. */
  function SymbolLayout(c: Class): (ws: seq<nat>)
    ensures Sum(ws) == SymbolSize(c)
  {
    if c == Class32 then [4, 4, 4, 1, 1, 2] else [4, 1, 1, 2, 8, 8]
  }

  function SymbolOf(c: Class, f: seq<nat>): Symbol
    requires FitWidths(f, SymbolLayout(c))
  {
    Pow256Widths();
    if c == Class32 then Symbol(f[0], f[1], f[2], f[3], f[4], f[5])
    else Symbol(f[0], f[4], f[5], f[1], f[2], f[3])
  }

  function SymbolFields(c: Class, s: Symbol): seq<nat>
  {
    if c == Class32 then [s.name, s.value, s.size, s.info, s.other, s.shndx]
    else [s.name, s.info, s.other, s.shndx, s.value, s.size]
  }

  /** The symbol stored at the start of b. */
  function DecodeSymbol(c: Class, o: ByteOrder, b: seq<byte>): Symbol
    requires |b| >= SymbolSize(c)
  {
    DecodeFieldsFit(o, b, SymbolLayout(c));
    SymbolOf(c, DecodeFields(o, b, SymbolLayout(c)))
  }

  function EncodeSymbol(c: Class, o: ByteOrder, s: Symbol): (b: seq<byte>)
    ensures |b| == SymbolSize(c)
  {
    EncodeFields(o, SymbolFields(c, s), SymbolLayout(c))
  }

  predicate SymbolFits(c: Class, s: Symbol)
  {
    FitWidths(SymbolFields(c, s), SymbolLayout(c))
  }

  /** Decoding an encoded symbol gives it back. */
  lemma SymbolDecodeEncode(c: Class, o: ByteOrder, s: Symbol)
    requires SymbolFits(c, s)
    ensures DecodeSymbol(c, o, EncodeSymbol(c, o, s)) == s
  {
    DecodeEncodeFields(o, SymbolFields(c, s), SymbolLayout(c));
  }

  /** A decoded symbol fits its class, and encoding it gives its bytes back. */
  lemma SymbolEncodeDecode(c: Class, o: ByteOrder, b: seq<byte>)
    requires |b| == SymbolSize(c)
    ensures SymbolFits(c, DecodeSymbol(c, o, b))
    ensures EncodeSymbol(c, o, DecodeSymbol(c, o, b)) == b
  {
    var f := DecodeFields(o, b, SymbolLayout(c));
    DecodeFieldsFit(o, b, SymbolLayout(c));
    assert SymbolFields(c, SymbolOf(c, f)) == f;
    EncodeDecodeFields(o, b, SymbolLayout(c));
  }

  // --------------------------------------------------------------- relocation

  /** SHT_REL entries carry r_offset and r_info; SHT_RELA entries add r_addend. */
  datatype RelKind = Rel | Rela

  /** Elf32_Rel(a) and Elf64_Rel(a). The addend of a Rel entry, which the file
      does not store, is 0 here. */
  datatype Reloc = Reloc(off: u64, info: u64, addend: int)

  /** Native record sizes: Rel32 8, Rela32 12, Rel64 16, Rela64 24 bytes. */
  function RelocSize(c: Class, k: RelKind): nat
  {
    match (c, k)
    case (Class32, Rel) => 8
    case (Class32, Rela) => 12
    case (Class64, Rel) => 16
    case (Class64, Rela) => 24
  }

  /** The relocation entry stored at the start of b: r_offset and r_info,
      then for Rela the signed Elf32_Sword or Elf64_Sxword r_addend. */
  function DecodeReloc(c: Class, k: RelKind, o: ByteOrder, b: seq<byte>): (r: Reloc)
    requires |b| >= RelocSize(c, k)
    ensures c == Class32 ==> r.info < TWO32
  {
    var w := Word(c);
    var addend := if k == Rel then 0 else ToSigned(Field(o, b, 2 * w, w), w);
    if c == Class32 then Reloc(Field32(o, b, 0), Field32(o, b, 4), addend)
    else Reloc(Field64(o, b, 0), Field64(o, b, 8), addend)
  }

  // ----------------------------------------------------------- program header

  /** Elf32_Phdr and Elf64_Phdr: p_type, p_flags, p_offset, p_vaddr, p_paddr,
      p_filesz, p_memsz, p_align. */
  datatype ProgHeader = ProgHeader(
    pType: u32, flags: u32, off: u64, vaddr: u64, paddr: u64,
    filesz: u64, memsz: u64, align: u64)

  /** Native record sizes: Prog32 is 32 bytes, Prog64 is 56. */
  function ProgSize(c: Class): nat
  {
    if c == Class32 then 32 else 56
  }

  /** The field widths in file order. Elf32_Phdr has eight 4-byte fields
      with p_flags at 24, after p_memsz; Elf64_Phdr puts p_flags at 4, right
      after p_type, and widens the six others to 8 bytes. */
  function ProgLayout(c: Class): (ws: seq<nat>)
    ensures Sum(ws) == ProgSize(c)
  {
    if c == Class32 then [4, 4, 4, 4, 4, 4, 4, 4] else [4, 4, 8, 8, 8, 8, 8, 8]
  }

  function ProgOf(c: Class, f: seq<nat>): ProgHeader
    requires FitWidths(f, ProgLayout(c))
  {
    Pow256Widths();
    if c == Class32 then ProgHeader(f[0], f[6], f[1], f[2], f[3], f[4], f[5], f[7])
    else ProgHeader(f[0], f[1], f[2], f[3], f[4], f[5], f[6], f[7])
  }

  function ProgFields(c: Class, p: ProgHeader): seq<nat>
  {
    if c == Class32 then [p.pType, p.off, p.vaddr, p.paddr, p.filesz, p.memsz, p.flags, p.align]
    else [p.pType, p.flags, p.off, p.vaddr, p.paddr, p.filesz, p.memsz, p.align]
  }

  /** The program header stored at the start of b. */
  function DecodeProg(c: Class, o: ByteOrder, b: seq<byte>): ProgHeader
    requires |b| >= ProgSize(c)
  {
    DecodeFieldsFit(o, b, ProgLayout(c));
    ProgOf(c, DecodeFields(o, b, ProgLayout(c)))
  }

  function EncodeProg(c: Class, o: ByteOrder, p: ProgHeader): (b: seq<byte>)
    ensures |b| == ProgSize(c)
  {
    EncodeFields(o, ProgFields(c, p), ProgLayout(c))
  }

  predicate ProgFits(c: Class, p: ProgHeader)
  {
    FitWidths(ProgFields(c, p), ProgLayout(c))
  }

  /** Decoding an encoded program header gives it back. */
  lemma ProgDecodeEncode(c: Class, o: ByteOrder, p: ProgHeader)
    requires ProgFits(c, p)
    ensures DecodeProg(c, o, EncodeProg(c, o, p)) == p
  {
    DecodeEncodeFields(o, ProgFields(c, p), ProgLayout(c));
  }

  /** A decoded program header fits its class, and encoding it gives its
      bytes back. */
  lemma ProgEncodeDecode(c: Class, o: ByteOrder, b: seq<byte>)
    requires |b| == ProgSize(c)
    ensures ProgFits(c, DecodeProg(c, o, b))
    ensures EncodeProg(c, o, DecodeProg(c, o, b)) == b
  {
    var f := DecodeFields(o, b, ProgLayout(c));
    DecodeFieldsFit(o, b, ProgLayout(c));
    assert ProgFields(c, ProgOf(c, f)) == f;
    EncodeDecodeFields(o, b, ProgLayout(c));
  }

  /** Fields that end within the first n bytes read the same from those n
      bytes. */
  lemma {:induction false} DecodeFieldsPrefix(o: ByteOrder, b: seq<byte>, ws: seq<nat>, n: nat)
    requires Sum(ws) <= n <= |b|
    ensures DecodeFields(o, b[..n], ws) == DecodeFields(o, b, ws)
  {
    if ws != [] {
      var w := ws[0];
      assert b[..n][..w] == b[..w];
      assert b[..n][w..] == b[w..][..n - w];
      DecodeFieldsPrefix(o, b[w..], ws[1..], n - w);
    }
  }

  /** binary.Read of a program header consumes only its native size: the
      bytes after the first ProgSize(c) of a longer slice do not matter. */
  lemma DecodeProgPrefix(c: Class, o: ByteOrder, b: seq<byte>)
    requires |b| >= ProgSize(c)
    ensures DecodeProg(c, o, b) == DecodeProg(c, o, b[..ProgSize(c)])
  {
    DecodeFieldsPrefix(o, b, ProgLayout(c), ProgSize(c));
  }
}
