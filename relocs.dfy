/** Relocation entries ("Relocation" in chapter 4 of the System V ABI): the
    split of r_info into a symbol index and a relocation type, the
    machine-keyed choice of the type's mnemonic family, and the resolution of
    one entry against the symbol tables as printRelocations performs it. */
module Relocs {
  import opened Bytes
  import opened Layout
  import opened Wrappers
  import opened Faults
  import opened Tables

  // ------------------------------------------------------------ r_info split

  /** ELF32_R_SYM: the upper 24 bits of a 32-bit r_info. */
  function RSym32(info: u32): (s: u32)
    ensures s < 0x100_0000
  {
    info / 256
  }

  /** ELF32_R_TYPE: the low 8 bits of a 32-bit r_info. */
  function RType32(info: u32): (t: u32)
    ensures t < 256
  {
    info % 256
  }

  /** ELF32_R_INFO, the packing the 32-bit split inverts. */
  function RInfo32(sym: u32, t: u32): (info: u32)
    requires sym < 0x100_0000 && t < 256
    ensures info / 256 == sym && info % 256 == t
  {
    sym * 256 + t
  }

  /** ELF64_R_SYM: the upper 32 bits of a 64-bit r_info. */
  function RSym64(info: u64): (s: u32)
    ensures s * TWO32 <= info < (s + 1) * TWO32
  {
    info / TWO32
  }

  /** ELF64_R_TYPE: the low 32 bits of a 64-bit r_info. */
  function RType64(info: u64): (t: u32)
    ensures (info - t) % TWO32 == 0
  {
    info % TWO32
  }

  /** Go's elf.R_INFO(sym, typ): sym << 32 | typ, the composite that
      printRelocations displays for both classes. */
  function RInfo(sym: u32, t: u32): (info: u64)
    ensures info / TWO32 == sym && info % TWO32 == t
  {
    sym * TWO32 + t
  }

  /** The (symbol, type) pair of an entry's r_info in its class. */
  datatype InfoParts = InfoParts(sym: u32, rtype: u32)

  function SplitInfo(c: Class, info: u64): (p: InfoParts)
    requires c == Class32 ==> info < TWO32
    ensures c == Class32 ==> p.sym < 0x100_0000 && p.rtype < 256 && RInfo32(p.sym, p.rtype) == info
    ensures c == Class64 ==> RInfo(p.sym, p.rtype) == info
  {
    if c == Class32 then InfoParts(RSym32(info), RType32(info))
    else InfoParts(RSym64(info), RType64(info))
  }

  /** The 32-bit split is inverted by ELF32_R_INFO. */
  lemma Info32RoundTrip(info: u32)
    ensures RInfo32(RSym32(info), RType32(info)) == info
  {
  }

  lemma Split32RoundTrip(sym: u32, t: u32)
    requires sym < 0x100_0000 && t < 256
    ensures RSym32(RInfo32(sym, t)) == sym && RType32(RInfo32(sym, t)) == t
  {
  }

  /** The 64-bit split and the displayed composite are inverse. */
  lemma Info64RoundTrip(info: u64)
    ensures RInfo(RSym64(info), RType64(info)) == info
  {
  }

  lemma Split64RoundTrip(sym: u32, t: u32)
    ensures RSym64(RInfo(sym, t)) == sym && RType64(RInfo(sym, t)) == t
  {
  }

  /** In the 32-bit class the displayed composite shows r_info unchanged
      exactly when the symbol index is 0. */
  lemma Displayed32(info: u32)
    ensures RInfo(RSym32(info), RType32(info)) == info <==> RSym32(info) == 0
  {
    var s, t := RSym32(info), RType32(info);
    assert info == s * 256 + t;
    assert RInfo(s, t) - info == s * (TWO32 - 256);
  }

  /** r_info 0x101 (symbol 1, type 1) of a 32-bit entry is displayed as
      0x100000001. */
  lemma Displayed32Example()
    ensures SplitInfo(Class32, 0x101) == InfoParts(1, 1)
    ensures RInfo(1, 1) == 0x1_0000_0001
  {
    assert RSym32(0x101) == 1 && RType32(0x101) == 1;
  }

  // ------------------------------------------------------- machine dispatch

  const EM_386: u16 := 3
  const EM_MIPS: u16 := 8
  const EM_PPC: u16 := 20
  const EM_PPC64: u16 := 21
  const EM_S390: u16 := 22
  const EM_ARM: u16 := 40
  const EM_SPARCV9: u16 := 43
  const EM_X86_64: u16 := 62
  const EM_AARCH64: u16 := 183
  const EM_RISCV: u16 := 243

  /** The debug/elf relocation type enumerations resolveRelocType formats. */
  datatype RelocFamily =
    R_X86_64 | R_386 | R_ARM | R_AARCH64 | R_PPC | R_PPC64 | R_MIPS | R_RISCV | R_390 | R_SPARC

  /** A relocation type's mnemonic: the entry rtype of a family's enumeration,
      or the literal "R_UNKNOWN". */
  datatype RelocTypeName = Mnemonic(family: RelocFamily, rtype: u32) | RUnknown

  const R_UNKNOWN: string := "R_UNKNOWN"

  /** The architectures whose mnemonics are known, with their enumerations. */
  const MachineFamilies: map<u16, RelocFamily> := map[
    EM_X86_64 := R_X86_64, EM_386 := R_386, EM_ARM := R_ARM,
    EM_AARCH64 := R_AARCH64, EM_PPC := R_PPC, EM_PPC64 := R_PPC64,
    EM_MIPS := R_MIPS, EM_RISCV := R_RISCV, EM_S390 := R_390,
    EM_SPARCV9 := R_SPARC]

  /** resolveRelocType: the switch on the machine. */
  function ResolveRelocType(rType: u32, mType: u16): (r: RelocTypeName)
    ensures r.Mnemonic? ==> r.rtype == rType
  {
    if mType == EM_X86_64 then Mnemonic(R_X86_64, rType)
    else if mType == EM_386 then Mnemonic(R_386, rType)
    else if mType == EM_ARM then Mnemonic(R_ARM, rType)
    else if mType == EM_AARCH64 then Mnemonic(R_AARCH64, rType)
    else if mType == EM_PPC then Mnemonic(R_PPC, rType)
    else if mType == EM_PPC64 then Mnemonic(R_PPC64, rType)
    else if mType == EM_MIPS then Mnemonic(R_MIPS, rType)
    else if mType == EM_RISCV then Mnemonic(R_RISCV, rType)
    else if mType == EM_S390 then Mnemonic(R_390, rType)
    else if mType == EM_SPARCV9 then Mnemonic(R_SPARC, rType)
    else RUnknown
  }

  /** The switch agrees with the table: a known machine gives its family's
      mnemonic for the very type numeral, any other machine R_UNKNOWN and
      never an error. */
  lemma ResolveRelocTypeTable(rType: u32, mType: u16)
    ensures mType in MachineFamilies ==> ResolveRelocType(rType, mType) == Mnemonic(MachineFamilies[mType], rType)
    ensures mType !in MachineFamilies <==> ResolveRelocType(rType, mType) == RUnknown
  {
  }

  // --------------------------------------------------------- entry resolution

  const DYNSYM: string := ".dynsym"
  const SYMTAB: string := ".symtab"

  /** SHN_UNDEF, the undefined symbol index. */
  const SHN_UNDEF: u32 := 0

  /** One line of the relocation listing: r_offset, the displayed info
      composite, the type mnemonic, the symbol's value and its name (with
      " + " for a RELA entry on a defined symbol), and the addend of a RELA
      entry. */
  datatype Resolved = Resolved(
    off: u64, info: u64, rtype: RelocTypeName, symValue: u64, symName: string,
    addend: Option<int>)

  /** The symbol table that sh_link of the relocation section names: the
      dynamic maps for ".dynsym", the static ones for ".symtab". */
  function LinkedTable(names: seq<string>, rel: SectionHeader, dyn: SymbolTable, st: SymbolTable): (r: Result<SymbolTable, Error>)
    ensures rel.link >= |names| <==> r == Err(IndexOutOfRange)
    ensures r == Err(UnresolvableSymbolTable) <==>
      rel.link < |names| && names[rel.link] != DYNSYM && names[rel.link] != SYMTAB
    ensures r.Ok? ==> r.value == if names[rel.link] == DYNSYM then dyn else st
  {
    if rel.link >= |names| then Err(IndexOutOfRange)
    else if names[rel.link] == DYNSYM then Ok(dyn)
    else if names[rel.link] == SYMTAB then Ok(st)
    else Err(UnresolvableSymbolTable)
  }

  /** The resolution of entry e of a relocation section rel of kind rk, as
      printRelocations does it for each entry. */
  function ResolveEntry(c: Class, machine: u16, names: seq<string>, rel: SectionHeader,
                        dyn: SymbolTable, st: SymbolTable, rk: RelKind, e: Reloc): (r: Result<Resolved, Error>)
    requires c == Class32 ==> e.info < TWO32
    ensures r.Err? ==> r.error == IndexOutOfRange || r.error == UnresolvableSymbolTable || r.error == MissingSymbol
    ensures r.Ok? ==> r.value.off == e.off && r.value.addend == (if rk == Rela then Some(e.addend) else None)
  {
    var p := SplitInfo(c, e.info);
    var relName := ResolveRelocType(p.rtype, machine);
    var linked := LinkedTable(names, rel, dyn, st);
    if linked.Err? then Err(linked.error)
    else
      var tab := linked.value;
      if p.sym !in tab.symbols then Err(MissingSymbol)
      else
        var symbol := tab.symbols[p.sym];
        // a name offset absent from the name map reads as Go's zero string
        var name := if symbol.name in tab.names then tab.names[symbol.name] else "";
        var shown := if rk == Rela && p.sym != SHN_UNDEF then name + " + " else name;
        Ok(Resolved(e.off, RInfo(p.sym, p.rtype), relName, symbol.value, shown,
                    if rk == Rela then Some(e.addend) else None))
  }

  /** An entry resolves exactly when sh_link names .dynsym or .symtab and
      the chosen map holds the entry's symbol index; then the line carries the
      entry's offset, the (symbol, type) composite of its class's split, the
      mnemonic, the symbol's value, and its name from that table (the empty
      string when the name map lacks its st_name), followed by " + " on a
      RELA entry for a defined symbol, and the addend of a RELA entry. */
  lemma ResolveEntryOk(c: Class, machine: u16, names: seq<string>, rel: SectionHeader,
                       dyn: SymbolTable, st: SymbolTable, rk: RelKind, e: Reloc)
    requires c == Class32 ==> e.info < TWO32
    ensures var r := ResolveEntry(c, machine, names, rel, dyn, st, rk, e);
            var p := SplitInfo(c, e.info);
            var linked := LinkedTable(names, rel, dyn, st);
            (r.Ok? <==> linked.Ok? && p.sym in linked.value.symbols) &&
            (r.Ok? ==>
               r.value.off == e.off &&
               r.value.rtype == ResolveRelocType(p.rtype, machine) &&
               r.value.symValue == linked.value.symbols[p.sym].value &&
               var sym := linked.value.symbols[p.sym];
               var n := if sym.name in linked.value.names then linked.value.names[sym.name] else "";
               r.value.symName == (if rk == Rela && p.sym != SHN_UNDEF then n + " + " else n) &&
               r.value.info == RInfo(p.sym, p.rtype) &&
               r.value.addend == (if rk == Rela then Some(e.addend) else None))
  {
  }

  /** The displayed composite equals r_info for every 64-bit entry. */
  lemma ResolveEntryInfo64(machine: u16, names: seq<string>, rel: SectionHeader,
                           dyn: SymbolTable, st: SymbolTable, rk: RelKind, e: Reloc)
    ensures var r := ResolveEntry(Class64, machine, names, rel, dyn, st, rk, e);
            r.Ok? ==> r.value.info == e.info
  {
    Info64RoundTrip(e.info);
  }

  /** A 32-bit line displays R_INFO(R_SYM32(r_info), R_TYPE32(r_info)), which
      is r_info itself exactly when the symbol index is 0. */
  lemma ResolveEntryInfo32(machine: u16, names: seq<string>, rel: SectionHeader,
                           dyn: SymbolTable, st: SymbolTable, rk: RelKind, e: Reloc)
    requires e.info < TWO32
    ensures var r := ResolveEntry(Class32, machine, names, rel, dyn, st, rk, e);
            r.Ok? ==> r.value.info == RInfo(RSym32(e.info), RType32(e.info)) &&
                      (r.value.info == e.info <==> RSym32(e.info) == 0)
  {
    Displayed32(e.info);
  }

  /** A ".dynsym" link never consults the static maps and a ".symtab" link
      never the dynamic ones: the same symbol index in both tables resolves
      independently. */
  lemma ResolveEntryNoAliasing(c: Class, machine: u16, names: seq<string>, rel: SectionHeader,
                               dyn1: SymbolTable, st1: SymbolTable, dyn2: SymbolTable, st2: SymbolTable,
                               rk: RelKind, e: Reloc)
    requires c == Class32 ==> e.info < TWO32
    requires rel.link < |names|
    requires names[rel.link] == DYNSYM ==> dyn1 == dyn2
    requires names[rel.link] == SYMTAB ==> st1 == st2
    ensures ResolveEntry(c, machine, names, rel, dyn1, st1, rk, e)
         == ResolveEntry(c, machine, names, rel, dyn2, st2, rk, e)
  {
  }

  /** A RELA line shows the REL line's name followed by " + " exactly when
      the symbol index is not SHN_UNDEF, and adds the addend. */
  lemma RelaNameSuffix(c: Class, machine: u16, names: seq<string>, rel: SectionHeader,
                       dyn: SymbolTable, st: SymbolTable, e: Reloc)
    requires c == Class32 ==> e.info < TWO32
    ensures var a := ResolveEntry(c, machine, names, rel, dyn, st, Rela, e);
            var b := ResolveEntry(c, machine, names, rel, dyn, st, Rel, e);
            a.Ok? == b.Ok? &&
            (a.Ok? ==> a.value == b.value.(
                         symName := b.value.symName + (if SplitInfo(c, e.info).sym != SHN_UNDEF then " + " else ""),
                         addend := Some(e.addend)))
  {
  }

  /** A RELA section of an x86-64 file whose sh_link is the .dynsym section,
      holding one symbol `foo` at 0x1000: its entry for symbol 1, type
      R_X86_64_JUMP_SLOT (7), resolves to `foo + ` at 0x1000 with the
      entry's addend. */
  lemma ResolveFooExample(addend: int)
    ensures var names := ["", ".rela.plt", DYNSYM, ".dynstr"];
            var rel := SectionHeader(0, SHT_RELA, 0, 0, 0x200, 24, 2, 0, 8, 24);
            var foo := Symbol(1, 0x1000, 0, 0x12, 0, 0);
            var dyn := SymbolTable(map[0 := Symbol(0, 0, 0, 0, 0, 0), 1 := foo], map[0 := "", 1 := "foo"]);
            var none := SymbolTable(map[], map[]);
            var e := Reloc(0x3018, 0x1_0000_0007, addend);
            ResolveEntry(Class64, EM_X86_64, names, rel, dyn, none, Rela, e)
              == Ok(Resolved(0x3018, 0x1_0000_0007, Mnemonic(R_X86_64, 7), 0x1000, "foo + ", Some(addend)))
  {
    assert SplitInfo(Class64, 0x1_0000_0007) == InfoParts(1, 7);
    assert "foo" + " + " == "foo + ";
  }

  /** A relocation section linked to a section that is neither .dynsym nor
      .symtab stops the listing with UnresolvableSymbolTable, whatever the
      entry. */
  lemma ResolveUnlinkedExample(c: Class, machine: u16, dyn: SymbolTable, st: SymbolTable, rk: RelKind, e: Reloc)
    requires c == Class32 ==> e.info < TWO32
    ensures var names := ["", ".rel.dyn", ".dynstr"];
            var rel := SectionHeader(0, SHT_REL, 0, 0, 0x200, 16, 2, 0, 8, 16);
            ResolveEntry(c, machine, names, rel, dyn, st, rk, e) == Err(UnresolvableSymbolTable)
  {
  }
}
